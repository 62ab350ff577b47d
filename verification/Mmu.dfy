/**
 The memory management unit: dynamic page allocation over the frame allocator
 and the recursive page tables. Table and directory entries are read and
 written through virtual addresses, so every access goes through the walk.
 */
module Mmus {
  import opened BitSets
  import opened Options
  import opened PageFrames
  import opened PageTables

  /** A call either panics and never returns, or returns an address (0 is null). */
  datatype Outcome = Panicked | Done(address: nat)

  ghost predicate Unmapped(mem: Memory, pd: nat, q: nat)
    requires pd < FRAMES && q < FRAMES
  {
    Walk(mem, pd, q).None?
  }

  /** Pages `s .. s + n - 1` are all unmapped. */
  ghost predicate Run(mem: Memory, pd: nat, s: nat, n: nat)
    requires pd < FRAMES
  {
    s + n <= FRAMES && forall q: nat | s <= q < s + n :: Unmapped(mem, pd, q)
  }

  /** The scan has met no run of `n` in the first `pos` pages; the last `count` of them are unmapped. */
  ghost predicate Scanned(mem: Memory, pd: nat, n: nat, pos: nat, count: nat)
    requires pd < FRAMES && pos <= FRAMES
  {
    && count <= pos && count < n
    && Run(mem, pd, pos - count, count)
    && (count < pos ==> !Unmapped(mem, pd, pos - count - 1))
    && forall s: nat | s + n <= pos :: !Run(mem, pd, s, n)
  }

  ghost predicate LowestRun(mem: Memory, pd: nat, n: nat, s: nat)
    requires pd < FRAMES
  {
    Run(mem, pd, s, n) && forall s': nat | s' < s :: !Run(mem, pd, s', n)
  }

  /** One step of the scan. */
  lemma ScanStep(mem: Memory, pd: nat, n: nat, pos: nat, count: nat)
    requires pd < FRAMES && pos < FRAMES && Scanned(mem, pd, n, pos, count)
    ensures Unmapped(mem, pd, pos) && count + 1 < n ==> Scanned(mem, pd, n, pos + 1, count + 1)
    ensures Unmapped(mem, pd, pos) && count + 1 == n ==> LowestRun(mem, pd, n, pos - count)
    ensures !Unmapped(mem, pd, pos) ==> Scanned(mem, pd, n, pos + 1, 0)
  {
    forall s: nat | s + n <= pos + 1 && s < pos - count
      ensures !Run(mem, pd, s, n)
    {
      if s + n == pos + 1 {
        assert !Unmapped(mem, pd, pos - count - 1);
      }
    }
  }

  /** `mem1` is `mem0` with nothing but new, empty tables, which are the only new frames in use. */
  ghost predicate OnlyTables(mem0: Memory, used0: set<nat>, mem1: Memory, used1: set<nat>, pd: nat)
    requires pd < FRAMES
  {
    && SameTranslations(mem0, mem1, pd)
    && KeepsTables(mem0, mem1, pd)
    && used1 == used0 + TableFrames(mem1, pd)
  }

  lemma OnlyTablesTwice(mem0: Memory, used0: set<nat>, mem1: Memory, used1: set<nat>, mem2: Memory, used2: set<nat>,
                        pd: nat)
    requires pd < FRAMES
    requires OnlyTables(mem0, used0, mem1, used1, pd) && OnlyTables(mem1, used1, mem2, used2, pd)
    ensures OnlyTables(mem0, used0, mem2, used2, pd)
  {
    forall q: nat
      ensures SamePage(mem0, mem2, pd, q)
    {
      assert SamePage(mem0, mem1, pd, q) && SamePage(mem1, mem2, pd, q);
    }
    forall f | f in TableFrames(mem1, pd)
      ensures f in TableFrames(mem2, pd)
    {
      var i: nat :| i < SELF_MAP && HasTable(mem1, pd, i) && TableFrame(mem1, pd, i) == f;
      assert HasTable(mem2, pd, i) && TableFrame(mem2, pd, i) == f;
    }
  }

  /**
   The effect of a page allocation: new empty tables, and pages `p .. p + n - 1`
   mapped, writable, to frames that were not in use. Nothing else is added to the frames in use.
   */
  ghost predicate Allocated(mem0: Memory, used0: set<nat>, mem1: Memory, used1: set<nat>, pd: nat, p: nat, n: nat)
    requires pd < FRAMES && p + n <= WINDOW_PAGE
  {
    && SameOutside(mem0, mem1, pd, p, n)
    && KeepsTables(mem0, mem1, pd)
    && (forall q: nat | p <= q < p + n :: Writable(mem1, pd, q))
    && used1 == used0 + TableFrames(mem1, pd) + PageFramesIn(mem1, pd, p, n)
    && used0 !! PageFramesIn(mem1, pd, p, n)
  }

  lemma TablesThenPages(mem0: Memory, used0: set<nat>, mem1: Memory, used1: set<nat>, mem2: Memory, used2: set<nat>,
                        pd: nat, p: nat, n: nat)
    requires pd < FRAMES && p + n <= WINDOW_PAGE
    requires OnlyTables(mem0, used0, mem1, used1, pd)
    requires FreshPages(mem1, used1, mem2, used2, pd, p, n) && mem2[pd] == mem1[pd]
    ensures Allocated(mem0, used0, mem2, used2, pd, p, n)
  {
    forall q: nat | !(p <= q < p + n)
      ensures SamePage(mem0, mem2, pd, q)
    {
      assert SamePage(mem0, mem1, pd, q) && SamePage(mem1, mem2, pd, q);
    }
    forall i: nat | i < ENTRIES
      ensures HasTable(mem2, pd, i) <==> HasTable(mem1, pd, i)
      ensures TableFrame(mem2, pd, i) == TableFrame(mem1, pd, i)
    {
    }
    assert TableFrames(mem2, pd) == TableFrames(mem1, pd);
  }

  /** Runs outside the self-map window do not notice new tables. */
  lemma SameRuns(mem: Memory, mem': Memory, pd: nat, s: nat, n: nat)
    requires pd < FRAMES && SameTranslations(mem, mem', pd) && s + n <= WINDOW_PAGE
    ensures Run(mem, pd, s, n) <==> Run(mem', pd, s, n)
  {
    forall q: nat | s <= q < s + n
      ensures Unmapped(mem, pd, q) <==> Unmapped(mem', pd, q)
    {
      assert SamePage(mem, mem', pd, q);
    }
  }

  lemma SameScan(mem: Memory, mem': Memory, pd: nat, n: nat, pos: nat, count: nat)
    requires pd < FRAMES && SameTranslations(mem, mem', pd) && pos <= WINDOW_PAGE
    requires Scanned(mem, pd, n, pos, count)
    ensures Scanned(mem', pd, n, pos, count)
  {
    SameRuns(mem, mem', pd, pos - count, count);
    if count < pos {
      assert SamePage(mem, mem', pd, pos - count - 1);
    }
    forall s: nat | s + n <= pos
      ensures !Run(mem', pd, s, n)
    {
      SameRuns(mem, mem', pd, s, n);
    }
  }

  /** The first `n` tables exist. */
  ghost predicate TablesUpTo(mem: Memory, pd: nat, n: nat)
    requires pd < FRAMES && n <= ENTRIES
  {
    forall i: nat | i < n :: HasTable(mem, pd, i)
  }

  lemma StillTables(mem: Memory, mem': Memory, pd: nat, n: nat)
    requires pd < FRAMES && n < ENTRIES && TablesUpTo(mem, pd, n) && KeepsTables(mem, mem', pd)
    requires HasTable(mem', pd, n)
    ensures TablesUpTo(mem', pd, n + 1)
  {
    forall i: nat | i < n + 1
      ensures HasTable(mem', pd, i)
    {
      assert i < n ==> HasTable(mem, pd, i);
    }
  }

  lemma StillRunTables(mem: Memory, mem': Memory, pd: nat, p: nat, n: nat)
    requires pd < FRAMES && p + n < WINDOW_PAGE && KeepsTables(mem, mem', pd)
    requires forall q: nat | p <= q < p + n :: HasTable(mem, pd, q / 1024)
    requires HasTable(mem', pd, (p + n) / 1024)
    ensures forall q: nat | p <= q < p + n + 1 :: HasTable(mem', pd, q / 1024)
  {
    forall q: nat | p <= q < p + n + 1
      ensures HasTable(mem', pd, q / 1024)
    {
      assert q < p + n ==> HasTable(mem, pd, q / 1024);
    }
  }

  lemma WindowMapped(mem: Memory, pd: nat, q: nat)
    requires SelfMapped(mem, pd) && WINDOW_PAGE <= q < FRAMES && HasTable(mem, pd, q - WINDOW_PAGE)
    ensures !Unmapped(mem, pd, q)
  {
    assert q / 1024 == SELF_MAP && q % 1024 == q - WINDOW_PAGE;
  }

  /** Once every table exists, every page of the self-map window is mapped, so no run reaches into it. */
  lemma RunsAvoidWindow(mem: Memory, pd: nat, s: nat, n: nat)
    requires SelfMapped(mem, pd) && TablesUpTo(mem, pd, ENTRIES)
    requires n > 0 && Run(mem, pd, s, n)
    ensures s + n <= WINDOW_PAGE
  {
    var q := s + n - 1;
    assert Unmapped(mem, pd, q);
    if WINDOW_PAGE <= q {
      WindowMapped(mem, pd, q);
      assert false;
    }
  }

  /**
   `mem1` is `mem0` with pages `p .. p + n - 1` mapped to frames that were not
   in use, and those frames are exactly what was added to the frames in use.
   */
  ghost predicate FreshPages(mem0: Memory, used0: set<nat>, mem1: Memory, used1: set<nat>, pd: nat, p: nat, n: nat)
    requires pd < FRAMES && p + n <= WINDOW_PAGE
  {
    && SameOutside(mem0, mem1, pd, p, n)
    && (forall q: nat | p <= q < p + n :: Writable(mem1, pd, q))
    && used1 == used0 + PageFramesIn(mem1, pd, p, n)
    && used0 !! PageFramesIn(mem1, pd, p, n)
  }

  lemma NoFreshPages(mem: Memory, used: set<nat>, pd: nat, p: nat)
    requires pd < FRAMES && p <= WINDOW_PAGE
    ensures FreshPages(mem, used, mem, used, pd, p, 0)
  {
    assert PageFramesIn(mem, pd, p, 0) == {};
  }

  lemma OneMoreFreshPage(mem0: Memory, used0: set<nat>, mem1: Memory, used1: set<nat>, mem2: Memory, used2: set<nat>,
                         pd: nat, p: nat, k: nat)
    requires pd < FRAMES && p + k < WINDOW_PAGE
    requires FreshPages(mem0, used0, mem1, used1, pd, p, k)
    requires SameOutside(mem1, mem2, pd, p + k, 1)
    requires Writable(mem2, pd, p + k) && Walk(mem2, pd, p + k).value !in used1
    requires used2 == used1 + {Walk(mem2, pd, p + k).value}
    ensures FreshPages(mem0, used0, mem2, used2, pd, p, k + 1)
  {
    ExtendOutside(mem0, mem1, mem2, pd, p, k);
    forall q: nat | p <= q < p + k
      ensures Writable(mem2, pd, q) && Walk(mem2, pd, q) == Walk(mem1, pd, q)
    {
      assert SamePage(mem1, mem2, pd, q) && Writable(mem1, pd, q);
    }
    assert PageFramesIn(mem2, pd, p, k + 1) == PageFramesIn(mem1, pd, p, k) + {Walk(mem2, pd, p + k).value};
  }

  /** The counterpart for unmapping: the pages' frames are given back. */
  ghost predicate FreedPages(mem0: Memory, used0: set<nat>, mem1: Memory, used1: set<nat>, pd: nat, p: nat, n: nat)
    requires pd < FRAMES && p + n <= WINDOW_PAGE
  {
    && SameOutside(mem0, mem1, pd, p, n)
    && Run(mem1, pd, p, n)
    && used1 == used0 - PageFramesIn(mem0, pd, p, n)
  }

  lemma OneMoreFreedPage(mem0: Memory, used0: set<nat>, mem1: Memory, used1: set<nat>, mem2: Memory, used2: set<nat>,
                         pd: nat, p: nat, k: nat)
    requires pd < FRAMES && p + k < WINDOW_PAGE
    requires FreedPages(mem0, used0, mem1, used1, pd, p, k)
    requires SameOutside(mem1, mem2, pd, p + k, 1)
    requires Walk(mem1, pd, p + k).Some? && Walk(mem2, pd, p + k).None?
    requires used2 == used1 - {Walk(mem1, pd, p + k).value}
    ensures FreedPages(mem0, used0, mem2, used2, pd, p, k + 1)
  {
    ExtendOutside(mem0, mem1, mem2, pd, p, k);
    assert SamePage(mem0, mem1, pd, p + k) && Walk(mem0, pd, p + k) == Walk(mem1, pd, p + k);
    forall q: nat | p <= q < p + k + 1
      ensures Unmapped(mem2, pd, q)
    {
      assert q < p + k ==> SamePage(mem1, mem2, pd, q) && Unmapped(mem1, pd, q);
    }
    assert PageFramesIn(mem0, pd, p, k + 1) == PageFramesIn(mem0, pd, p, k) + {Walk(mem1, pd, p + k).value};
  }

  // ----- Counting frames -----

  /** How many numbers below `n` are in `s`. */
  ghost function Count(s: set<nat>, n: nat): nat {
    if n == 0 then 0 else Count(s, n - 1) + (if n - 1 in s then 1 else 0)
  }

  /** All of them, if none is larger. */
  lemma {:induction false} CountIsSize(s: set<nat>, n: nat)
    requires forall x | x in s :: x < n
    ensures Count(s, n) == |s|
    decreases n
  {
    if n == 0 {
      assert s == {};
    } else {
      var rest := s - {n - 1};
      CountIsSize(rest, n - 1);
      CountLess(s, n - 1, n - 1);
    }
  }

  lemma {:induction false} CountLess(s: set<nat>, f: nat, n: nat)
    ensures Count(s - {f}, n) == Count(s, n) - (if f in s && f < n then 1 else 0)
    decreases n
  {
    if n > 0 {
      CountLess(s, f, n - 1);
    }
  }

  lemma {:induction false} CountNone(s: set<nat>, n: nat)
    ensures Count(s, n) == 0 <==> forall x | x in s :: x >= n
    decreases n
  {
    if n > 0 {
      CountNone(s, n - 1);
    }
  }

  lemma {:induction false} CountMore(s: set<nat>, t: set<nat>, n: nat)
    requires s <= t
    ensures Count(s, n) <= Count(t, n)
    decreases n
  {
    if n > 0 {
      CountMore(s, t, n - 1);
    }
  }

  /** The directory slots in `slots` that have no table. */
  ghost function Lacking(mem: Memory, pd: nat, slots: set<nat>): set<nat>
    requires pd < FRAMES
  {
    set i | i in slots && i < ENTRIES && !HasTable(mem, pd, i)
  }

  /** How many tables `slots` lack. */
  ghost function Lacks(mem: Memory, pd: nat, slots: set<nat>): nat
    requires pd < FRAMES
  {
    Count(Lacking(mem, pd, slots), ENTRIES)
  }

  ghost predicate TableAt(mem0: Memory, mem: Memory, pd: nat, slots: set<nat>, i: nat)
    requires pd < FRAMES
  {
    i < ENTRIES ==> (HasTable(mem, pd, i) <==> i in slots || HasTable(mem0, pd, i))
  }

  /** The tables of `slots` have been made where they were lacking, each from one of `free0` frames. */
  ghost predicate Visited(mem0: Memory, free0: nat, mem: Memory, free: nat, pd: nat, slots: set<nat>)
    requires pd < FRAMES
  {
    && (forall i: nat :: TableAt(mem0, mem, pd, slots, i))
    && free + Lacks(mem0, pd, slots) == free0
  }

  lemma VisitedNone(mem: Memory, free: nat, pd: nat)
    requires pd < FRAMES
    ensures Visited(mem, free, mem, free, pd, {})
  {
    CountNone(Lacking(mem, pd, {}), ENTRIES);
  }

  lemma LacksOneMore(mem: Memory, pd: nat, slots: set<nat>, i: nat)
    requires pd < FRAMES && i < ENTRIES
    ensures Lacks(mem, pd, slots + {i}) == Lacks(mem, pd, slots) + (if i in slots || HasTable(mem, pd, i) then 0 else 1)
  {
    var few, more := Lacking(mem, pd, slots), Lacking(mem, pd, slots + {i});
    if i in slots || HasTable(mem, pd, i) {
      assert more == few;
    } else {
      assert more - {i} == few;
      CountLess(more, i, ENTRIES);
    }
  }

  lemma LacksOne(mem: Memory, pd: nat, i: nat)
    requires pd < FRAMES && i < ENTRIES
    ensures Lacks(mem, pd, {i}) == if HasTable(mem, pd, i) then 0 else 1
  {
    VisitedNone(mem, 0, pd);
    assert {} + {i} == {i};
    LacksOneMore(mem, pd, {}, i);
  }

  lemma VisitedMore(mem0: Memory, free0: nat, mem1: Memory, free1: nat, mem2: Memory, free2: nat, pd: nat,
                    slots: set<nat>, i: nat)
    requires pd < FRAMES && i < ENTRIES
    requires Visited(mem0, free0, mem1, free1, pd, slots) && Visited(mem1, free1, mem2, free2, pd, {i})
    ensures Visited(mem0, free0, mem2, free2, pd, slots + {i})
  {
    forall j: nat
      ensures TableAt(mem0, mem2, pd, slots + {i}, j)
    {
      assert TableAt(mem0, mem1, pd, slots, j) && TableAt(mem1, mem2, pd, {i}, j);
    }
    assert TableAt(mem0, mem1, pd, slots, i);
    LacksOneMore(mem0, pd, slots, i);
    LacksOne(mem1, pd, i);
  }

  /** With no frame left, a slot still lacking its table shows that there were too few. */
  lemma TooFew(mem0: Memory, free0: nat, mem: Memory, pd: nat, slots: set<nat>, i: nat, all: set<nat>)
    requires pd < FRAMES && Visited(mem0, free0, mem, 0, pd, slots)
    requires i < ENTRIES && !HasTable(mem, pd, i) && i in all && slots <= all
    ensures free0 < Lacks(mem0, pd, all)
  {
    assert TableAt(mem0, mem, pd, slots, i);
    LacksOneMore(mem0, pd, slots, i);
    CountMore(Lacking(mem0, pd, slots + {i}), Lacking(mem0, pd, all), ENTRIES);
  }

  lemma NothingLacking(mem: Memory, free: nat, pd: nat, i: nat)
    requires pd < FRAMES && i < ENTRIES && HasTable(mem, pd, i)
    ensures Visited(mem, free, mem, free, pd, {i})
  {
    LacksOne(mem, pd, i);
  }

  lemma TableHung(mem: Memory, free: nat, pd: nat, i: nat, f: nat)
    requires pd < FRAMES && i < SELF_MAP && f < FRAMES && f != pd && !HasTable(mem, pd, i)
    ensures Visited(mem, free + 1, WithTable(mem, pd, i, f), free, pd, {i})
  {
    MappedEntryFields(f);
    forall j: nat
      ensures TableAt(mem, WithTable(mem, pd, i, f), pd, {i}, j)
    {
    }
    LacksOne(mem, pd, i);
  }

  /** The first run of `n` pages from page `p` on, or too high to be one. */
  ghost function FirstRun(mem: Memory, pd: nat, n: nat, p: nat): nat
    requires pd < FRAMES
    decreases WINDOW_PAGE - p
  {
    if p + n > WINDOW_PAGE || Run(mem, pd, p, n) then p else FirstRun(mem, pd, n, p + 1)
  }

  lemma {:induction false} FirstRunIsFirst(mem: Memory, pd: nat, n: nat, p: nat)
    requires pd < FRAMES
    ensures var s := FirstRun(mem, pd, n, p);
            && p <= s && (s + n <= WINDOW_PAGE ==> Run(mem, pd, s, n))
            && forall q: nat | p <= q < s :: !Run(mem, pd, q, n)
    decreases WINDOW_PAGE - p
  {
    if p + n <= WINDOW_PAGE && !Run(mem, pd, p, n) {
      FirstRunIsFirst(mem, pd, n, p + 1);
    }
  }

  /** The slots a scan for `n` pages looks at: up to the end of the first run, or all. */
  ghost function ScannedSlots(mem: Memory, pd: nat, n: nat): set<nat>
    requires pd < FRAMES && n > 0
  {
    var s := FirstRun(mem, pd, n, 0);
    if s + n <= WINDOW_PAGE then Range(0, (s + n - 1) / 1024 + 1) else Range(0, ENTRIES)
  }

  /** A slot reached without finding a run is one that the scan looks at. */
  lemma SlotScanned(mem0: Memory, mem: Memory, pd: nat, n: nat, pde: nat, count: nat)
    requires pd < FRAMES && n > 0 && pde < ENTRIES && SameTranslations(mem0, mem, pd)
    requires Scanned(mem, pd, n, pde * 1024, count)
    ensures pde in ScannedSlots(mem0, pd, n) && Range(0, pde) <= ScannedSlots(mem0, pd, n)
  {
    var s := FirstRun(mem0, pd, n, 0);
    FirstRunIsFirst(mem0, pd, n, 0);
    if s + n <= WINDOW_PAGE {
      SameRuns(mem0, mem, pd, s, n);
      assert s + n > pde * 1024;
    }
  }

  /** The scan of `slots` slots is over: either with the first run, or with no run anywhere. */
  ghost predicate ScanOver(mem: Memory, pd: nat, n: nat, found: bool, start: nat, slots: nat)
    requires pd < FRAMES && n > 0
  {
    && ScannedSlots(mem, pd, n) == Range(0, slots)
    && (found <==> FirstRun(mem, pd, n, 0) + n <= WINDOW_PAGE)
    && (found ==> LowestRun(mem, pd, n, start) && start + n <= WINDOW_PAGE)
    && (!found ==> forall s: nat | s + n <= WINDOW_PAGE :: !Run(mem, pd, s, n))
  }

  lemma ScanFound(mem0: Memory, mem: Memory, pd: nat, n: nat, start: nat, pde: nat)
    requires SelfMapped(mem, pd) && n > 0 && SameTranslations(mem0, mem, pd) && pde < ENTRIES
    requires LowestRun(mem, pd, n, start) && pde * 1024 < start + n <= (pde + 1) * 1024
    requires TablesUpTo(mem, pd, pde + 1)
    ensures ScanOver(mem0, pd, n, true, start, pde + 1)
  {
    if pde == SELF_MAP {
      RunsAvoidWindow(mem, pd, start, n);
    }
    SameLowestRun(mem0, mem, pd, n, start);
    FirstRunIsFirst(mem0, pd, n, 0);
    assert FirstRun(mem0, pd, n, 0) == start;
  }

  lemma RunUnderTables(mem0: Memory, mem: Memory, pd: nat, n: nat, start: nat, slots: nat)
    requires pd < FRAMES && n > 0 && SameTranslations(mem0, mem, pd) && slots <= ENTRIES
    requires TablesUpTo(mem, pd, slots) && ScanOver(mem0, pd, n, true, start, slots) && start + n <= slots * 1024
    ensures Run(mem, pd, start, n) && forall q: nat | start <= q < start + n :: HasTable(mem, pd, q / 1024)
  {
    SameRuns(mem0, mem, pd, start, n);
    forall q: nat | start <= q < start + n
      ensures HasTable(mem, pd, q / 1024)
    {
      assert q / 1024 < slots;
    }
  }

  lemma ScanInVain(mem0: Memory, mem: Memory, pd: nat, n: nat, count: nat)
    requires pd < FRAMES && n > 0 && SameTranslations(mem0, mem, pd) && Scanned(mem, pd, n, FRAMES, count)
    ensures ScanOver(mem0, pd, n, false, 0, ENTRIES)
  {
    FirstRunIsFirst(mem0, pd, n, 0);
    forall s: nat | s + n <= WINDOW_PAGE
      ensures !Run(mem0, pd, s, n)
    {
      SameRuns(mem0, mem, pd, s, n);
    }
  }

  lemma SameLowestRun(mem0: Memory, mem1: Memory, pd: nat, n: nat, s: nat)
    requires pd < FRAMES && SameTranslations(mem0, mem1, pd) && s + n <= WINDOW_PAGE
    requires LowestRun(mem1, pd, n, s)
    ensures LowestRun(mem0, pd, n, s)
  {
    SameRuns(mem0, mem1, pd, s, n);
    forall s': nat | s' < s
      ensures !Run(mem0, pd, s', n)
    {
      SameRuns(mem0, mem1, pd, s', n);
    }
  }

  /** The tables of exactly these slots have been made where they were lacking. */
  ghost predicate TablesMade(mem0: Memory, mem: Memory, pd: nat, slots: set<nat>)
    requires pd < FRAMES
  {
    forall i: nat :: TableAt(mem0, mem, pd, slots, i)
  }

  /** What asking for `n` pages anywhere does to the page tables, with page `p` or 0 as the answer. */
  ghost predicate Sought(mem0: Memory, mem: Memory, pd: nat, n: nat, p: nat)
    requires pd < FRAMES
  {
    forall level: Level :: SoughtAt(level, mem0, mem, pd, n, p)
  }

  /** The two levels of the page tables. */
  datatype Level = Tables | Entries

  ghost predicate SoughtAt(level: Level, mem0: Memory, mem: Memory, pd: nat, n: nat, p: nat)
    requires pd < FRAMES
  {
    match level
    case Tables => n > 0 && KeepsTables(mem0, mem, pd) && TablesMade(mem0, mem, pd, ScannedSlots(mem0, pd, n))
    case Entries => SameOutside(mem0, mem, pd, p, if p == 0 then 0 else n)
  }

  lemma SoughtInVain(mem0: Memory, used0: set<nat>, mem: Memory, used: set<nat>, free0: nat, free: nat, pd: nat, n: nat,
                     slots: nat)
    requires pd < FRAMES && n > 0 && OnlyTables(mem0, used0, mem, used, pd)
    requires Visited(mem0, free0, mem, free, pd, Range(0, slots)) && ScannedSlots(mem0, pd, n) == Range(0, slots)
    ensures Sought(mem0, mem, pd, n, 0)
  {
    assert SoughtAt(Tables, mem0, mem, pd, n, 0) && SoughtAt(Entries, mem0, mem, pd, n, 0);
  }

  lemma SoughtAndFound(mem0: Memory, mem1: Memory, used1: set<nat>, mem2: Memory, used2: set<nat>,
                       pd: nat, n: nat, p: nat)
    requires pd < FRAMES && Sought(mem0, mem1, pd, n, 0) && p > 0 && p + n <= WINDOW_PAGE && mem2[pd] == mem1[pd]
    requires FreshPages(mem1, used1, mem2, used2, pd, p, n)
    ensures Sought(mem0, mem2, pd, n, p)
  {
    forall q: nat | !(p <= q < p + n)
      ensures SamePage(mem0, mem2, pd, q)
    {
      assert SamePage(mem0, mem1, pd, q) && SamePage(mem1, mem2, pd, q);
    }
    assert SoughtAt(Tables, mem0, mem1, pd, n, 0) && SoughtAt(Entries, mem0, mem1, pd, n, 0);
    StillMade(mem0, mem1, mem2, pd, ScannedSlots(mem0, pd, n));
    assert SoughtAt(Tables, mem0, mem2, pd, n, p);
  }

  /** What an allocation of `n` pages anywhere takes: the tables lacking on the way, and the pages if there is a run. */
  ghost function FramesNeeded(mem: Memory, pd: nat, n: nat): nat
    requires pd < FRAMES
  {
    if n == 0 then 0
    else Lacks(mem, pd, ScannedSlots(mem, pd, n)) + (if FirstRun(mem, pd, n, 0) + n <= WINDOW_PAGE then n else 0)
  }

  /** How many pages of a range are looked at: up to the first one that is mapped. */
  ghost function Looks(mem: Memory, pd: nat, p: nat, n: nat): (k: nat)
    requires pd < FRAMES && p + n <= WINDOW_PAGE
    ensures k <= n
    decreases n
  {
    if n == 0 then 0 else if !Unmapped(mem, pd, p) then 1 else 1 + Looks(mem, pd, p + 1, n - 1)
  }

  lemma {:induction false} LooksPast(mem: Memory, pd: nat, p: nat, n: nat, i: nat)
    requires pd < FRAMES && p + n <= WINDOW_PAGE && i <= n && Run(mem, pd, p, i)
    ensures i == n ==> Looks(mem, pd, p, n) == n
    ensures i < n ==> Looks(mem, pd, p, n) > i
    ensures i < n && !Unmapped(mem, pd, p + i) ==> Looks(mem, pd, p, n) == i + 1
    decreases n
  {
    if i > 0 {
      assert Unmapped(mem, pd, p);
      forall q: nat | p + 1 <= q < p + 1 + (i - 1)
        ensures Unmapped(mem, pd, q)
      {
      }
      LooksPast(mem, pd, p + 1, n - 1, i - 1);
    }
  }

  /** The slots of `n` pages. */
  ghost function SlotsOf(p: nat, n: nat): set<nat> {
    set q | q in Range(p, n) :: q / 1024
  }

  /** One more slot looked at: it belongs to the range, and if its page is mapped it is the last. */
  lemma SlotLookedAt(mem0: Memory, mem: Memory, pd: nat, p: nat, n: nat, i: nat)
    requires pd < FRAMES && p + n <= WINDOW_PAGE && i < n && SameTranslations(mem0, mem, pd) && Run(mem, pd, p, i)
    ensures var all := SlotsOf(p, Looks(mem0, pd, p, n));
            && SlotsOf(p, i) <= all && (p + i) / 1024 in all
            && (!Unmapped(mem0, pd, p + i) ==> SlotsOf(p, i + 1) == all)
    ensures SlotsOf(p, i) + {(p + i) / 1024} == SlotsOf(p, i + 1)
  {
    SameRuns(mem0, mem, pd, p, i);
    LooksPast(mem0, pd, p, n, i);
    assert p + i in Range(p, i + 1);
    assert Range(p, i + 1) == Range(p, i) + {p + i};
    assert Range(p, i + 1) <= Range(p, Looks(mem0, pd, p, n));
  }

  /** The table of page `p + i` is there: what has been checked of the pages before it still holds. */
  lemma PageReached(mem0: Memory, used0: set<nat>, free0: nat, mem1: Memory, used1: set<nat>, free1: nat,
                    mem2: Memory, used2: set<nat>, free2: nat, pd: nat, p: nat, i: nat)
    requires pd < FRAMES && p + i < WINDOW_PAGE
    requires OnlyTables(mem0, used0, mem1, used1, pd) && OnlyTables(mem1, used1, mem2, used2, pd)
    requires Visited(mem0, free0, mem1, free1, pd, SlotsOf(p, i))
    requires Visited(mem1, free1, mem2, free2, pd, {(p + i) / 1024}) && HasTable(mem2, pd, (p + i) / 1024)
    requires Run(mem1, pd, p, i) && forall q: nat | p <= q < p + i :: HasTable(mem1, pd, q / 1024)
    requires SlotsOf(p, i) + {(p + i) / 1024} == SlotsOf(p, i + 1)
    ensures OnlyTables(mem0, used0, mem2, used2, pd) && Visited(mem0, free0, mem2, free2, pd, SlotsOf(p, i + 1))
    ensures Run(mem2, pd, p, i) && forall q: nat | p <= q < p + i + 1 :: HasTable(mem2, pd, q / 1024)
    ensures Unmapped(mem2, pd, p + i) <==> Unmapped(mem0, pd, p + i)
    ensures Unmapped(mem0, pd, p + i) ==> Run(mem2, pd, p, i + 1)
  {
    OnlyTablesTwice(mem0, used0, mem1, used1, mem2, used2, pd);
    SameRuns(mem1, mem2, pd, p, i);
    StillRunTables(mem1, mem2, pd, p, i);
    VisitedMore(mem0, free0, mem1, free1, mem2, free2, pd, SlotsOf(p, i), (p + i) / 1024);
    assert SamePage(mem0, mem2, pd, p + i);
  }

  /** The slots an allocation at an address looks at: none if it is unaligned, else up to the first mapped page. */
  ghost function SlotsLooked(mem: Memory, pd: nat, va: nat, n: nat): set<nat>
    requires pd < FRAMES && va / 0x1000 + n <= WINDOW_PAGE
  {
    if va % 0x1000 != 0 then {} else SlotsOf(va / 0x1000, Looks(mem, pd, va / 0x1000, n))
  }

  lemma StillMade(mem0: Memory, mem1: Memory, mem2: Memory, pd: nat, slots: set<nat>)
    requires pd < FRAMES && TablesMade(mem0, mem1, pd, slots) && mem2[pd] == mem1[pd]
    ensures TablesMade(mem0, mem2, pd, slots)
  {
    forall i: nat
      ensures TableAt(mem0, mem2, pd, slots, i)
    {
      assert TableAt(mem0, mem1, pd, slots, i);
    }
  }

  /** What an allocation of `n` pages at page `p` takes. */
  ghost function FramesNeededAt(mem: Memory, pd: nat, p: nat, n: nat): nat
    requires pd < FRAMES && p + n <= WINDOW_PAGE
  {
    Lacks(mem, pd, SlotsOf(p, Looks(mem, pd, p, n))) + (if p > 0 && Run(mem, pd, p, n) then n else 0)
  }

  lemma OneFrameLess(frames: Frames, f: nat)
    requires f in frames.Free() && f < FRAMES
    ensures Count(frames.(used := frames.used + {f}).Free(), FRAMES) == Count(frames.Free(), FRAMES) - 1
  {
    assert frames.(used := frames.used + {f}).Free() == frames.Free() - {f};
    CountLess(frames.Free(), f, FRAMES);
  }

  // ----- Which frames are taken -----

  /** What the frame allocator goes by: the usable frames, those in use, and the one handed out last. */
  datatype Stock = Stock(usable: set<nat>, used: set<nat>, last: nat)

  /** Frame `f` is the next: the first free one from the last on, round the end. */
  ghost predicate Draws(stock: Stock, f: nat) {
    IsNextFit(stock.usable - stock.used, 1, stock.last, f)
  }

  ghost function Drawn(stock: Stock, f: nat): Stock {
    stock.(used := stock.used + {f}, last := f)
  }

  /** Slot `i` has its table: it had one, or the next frame has become one. */
  ghost predicate SlotDrawn(stock0: Stock, mem0: Memory, mem1: Memory, pd: nat, i: nat, stock1: Stock)
    requires pd < FRAMES
  {
    i < ENTRIES &&
    if HasTable(mem0, pd, i) then mem1 == mem0 && stock1 == stock0
    else Draws(stock0, TableFrame(mem1, pd, i)) && stock1 == Drawn(stock0, TableFrame(mem1, pd, i))
  }

  ghost predicate NewTable(mem0: Memory, mem1: Memory, pd: nat, i: nat)
    requires pd < FRAMES
  {
    i < SELF_MAP && HasTable(mem1, pd, i) && !HasTable(mem0, pd, i)
  }

  /** The allocator once the tables of `mem1` that are new in the first `n` slots have been drawn, slot by slot. */
  ghost function AfterTables(stock0: Stock, mem0: Memory, mem1: Memory, pd: nat, n: nat): Stock
    requires pd < FRAMES
  {
    if n == 0 then stock0
    else
      var stock := AfterTables(stock0, mem0, mem1, pd, n - 1);
      if NewTable(mem0, mem1, pd, n - 1) then Drawn(stock, TableFrame(mem1, pd, n - 1)) else stock
  }

  ghost predicate TableInTurn(stock0: Stock, mem0: Memory, mem1: Memory, pd: nat, i: nat)
    requires pd < FRAMES
  {
    NewTable(mem0, mem1, pd, i) ==> Draws(AfterTables(stock0, mem0, mem1, pd, i), TableFrame(mem1, pd, i))
  }

  /** The new tables are in the next frames, slot by slot, and nothing else has been drawn. */
  ghost predicate TablesInTurn(stock0: Stock, mem0: Memory, mem1: Memory, pd: nat, n: nat, stock1: Stock)
    requires pd < FRAMES
  {
    && stock1 == AfterTables(stock0, mem0, mem1, pd, n)
    && forall i: nat | i < n :: TableInTurn(stock0, mem0, mem1, pd, i)
  }

  ghost predicate SameSlot(mem1: Memory, mem2: Memory, pd: nat, i: nat)
    requires pd < FRAMES
  {
    i < SELF_MAP ==>
      && (HasTable(mem2, pd, i) <==> HasTable(mem1, pd, i))
      && (HasTable(mem1, pd, i) ==> TableFrame(mem2, pd, i) == TableFrame(mem1, pd, i))
  }

  lemma {:induction false} SameAfterTables(stock0: Stock, mem0: Memory, mem1: Memory, mem2: Memory, pd: nat, n: nat)
    requires pd < FRAMES && forall i: nat | i < n :: SameSlot(mem1, mem2, pd, i)
    ensures AfterTables(stock0, mem0, mem2, pd, n) == AfterTables(stock0, mem0, mem1, pd, n)
  {
    if n > 0 {
      SameAfterTables(stock0, mem0, mem1, mem2, pd, n - 1);
      assert SameSlot(mem1, mem2, pd, n - 1);
    }
  }

  lemma SameTablesInTurn(stock0: Stock, mem0: Memory, mem1: Memory, mem2: Memory, pd: nat, n: nat, stock1: Stock)
    requires pd < FRAMES && TablesInTurn(stock0, mem0, mem1, pd, n, stock1)
    requires forall i: nat | i < n :: SameSlot(mem1, mem2, pd, i)
    ensures TablesInTurn(stock0, mem0, mem2, pd, n, stock1)
  {
    SameAfterTables(stock0, mem0, mem1, mem2, pd, n);
    forall i: nat | i < n
      ensures TableInTurn(stock0, mem0, mem2, pd, i)
    {
      SameAfterTables(stock0, mem0, mem1, mem2, pd, i);
      assert SameSlot(mem1, mem2, pd, i) && TableInTurn(stock0, mem0, mem1, pd, i);
    }
  }

  /** No new tables from slot `n` on, up to slot `m`. */
  lemma {:induction false} NoneInTurn(stock0: Stock, mem0: Memory, mem1: Memory, pd: nat, n: nat, m: nat, stock1: Stock)
    requires pd < FRAMES && n <= m && TablesInTurn(stock0, mem0, mem1, pd, n, stock1)
    requires forall i: nat | n <= i < m :: !NewTable(mem0, mem1, pd, i)
    ensures TablesInTurn(stock0, mem0, mem1, pd, m, stock1)
  {
    if n < m {
      NoneInTurn(stock0, mem0, mem1, pd, n, m - 1, stock1);
      assert !NewTable(mem0, mem1, pd, m - 1);
      forall i: nat | i < m
        ensures TableInTurn(stock0, mem0, mem1, pd, i)
      {
        assert i == m - 1 || TableInTurn(stock0, mem0, mem1, pd, i);
      }
    }
  }

  /** One more slot. */
  lemma OneMoreInTurn(stock0: Stock, mem0: Memory, mem1: Memory, stock1: Stock, mem2: Memory, stock2: Stock,
                      free1: nat, free2: nat, pd: nat, i: nat)
    requires pd < FRAMES && i < ENTRIES && TablesInTurn(stock0, mem0, mem1, pd, i, stock1)
    requires SlotDrawn(stock1, mem1, mem2, pd, i, stock2) && Visited(mem1, free1, mem2, free2, pd, {i})
    requires KeepsTables(mem0, mem1, pd) && KeepsTables(mem1, mem2, pd) && (i == SELF_MAP ==> HasTable(mem1, pd, i))
    requires HasTable(mem1, pd, i) ==> HasTable(mem0, pd, i)
    ensures TablesInTurn(stock0, mem0, mem2, pd, i + 1, stock2)
  {
    forall j: nat | j < i
      ensures SameSlot(mem1, mem2, pd, j)
    {
      assert TableAt(mem1, mem2, pd, {i}, j);
    }
    assert TableAt(mem1, mem2, pd, {i}, i);
    SameTablesInTurn(stock0, mem0, mem1, mem2, pd, i, stock1);
    forall j: nat | j < i + 1
      ensures TableInTurn(stock0, mem0, mem2, pd, j)
    {
      assert j == i || TableInTurn(stock0, mem0, mem2, pd, j);
    }
  }

  /** One more slot of the scan. */
  lemma ScanInTurn(stock0: Stock, mem0: Memory, free0: nat, mem1: Memory, free1: nat, stock1: Stock,
                   mem2: Memory, free2: nat, stock2: Stock, pd: nat, i: nat)
    requires i < ENTRIES && SelfMapped(mem1, pd) && TablesInTurn(stock0, mem0, mem1, pd, i, stock1)
    requires Visited(mem0, free0, mem1, free1, pd, Range(0, i)) && Visited(mem1, free1, mem2, free2, pd, {i})
    requires SlotDrawn(stock1, mem1, mem2, pd, i, stock2)
    requires KeepsTables(mem0, mem1, pd) && KeepsTables(mem1, mem2, pd)
    ensures TablesInTurn(stock0, mem0, mem2, pd, i + 1, stock2)
  {
    assert TableAt(mem0, mem1, pd, Range(0, i), i);
    OneMoreInTurn(stock0, mem0, mem1, stock1, mem2, stock2, free1, free2, pd, i);
  }

  /** After a scan of the first `n` slots there are no new tables in the others. */
  lemma ScanTablesInTurn(stock0: Stock, mem0: Memory, free0: nat, mem1: Memory, free1: nat, stock1: Stock,
                         pd: nat, n: nat)
    requires pd < FRAMES && n <= ENTRIES && TablesInTurn(stock0, mem0, mem1, pd, n, stock1)
    requires Visited(mem0, free0, mem1, free1, pd, Range(0, n))
    ensures TablesInTurn(stock0, mem0, mem1, pd, ENTRIES, stock1)
  {
    forall i: nat | n <= i < ENTRIES
      ensures !NewTable(mem0, mem1, pd, i)
    {
      assert TableAt(mem0, mem1, pd, Range(0, n), i);
    }
    NoneInTurn(stock0, mem0, mem1, pd, n, ENTRIES, stock1);
  }

  /** The slots below which all tables are there once `i` pages from page `p` on have been looked at. */
  ghost function SlotsPassed(p: nat, i: nat): nat {
    if i == 0 then p / 1024 else (p + i - 1) / 1024 + 1
  }

  lemma SlotsBelow(p: nat, i: nat, j: nat)
    ensures j in SlotsOf(p, i) ==> j < SlotsPassed(p, i)
    ensures i > 0 ==> (p + i) / 1024 == SlotsPassed(p, i) || (p + i) / 1024 + 1 == SlotsPassed(p, i)
  {
  }

  /** One more page of the check. */
  lemma CheckInTurn(stock0: Stock, mem0: Memory, free0: nat, mem1: Memory, free1: nat, stock1: Stock,
                    mem2: Memory, free2: nat, stock2: Stock, pd: nat, p: nat, i: nat)
    requires pd < FRAMES && p + i < WINDOW_PAGE && TablesInTurn(stock0, mem0, mem1, pd, SlotsPassed(p, i), stock1)
    requires Visited(mem0, free0, mem1, free1, pd, SlotsOf(p, i))
    requires Visited(mem1, free1, mem2, free2, pd, {(p + i) / 1024})
    requires forall q: nat | p <= q < p + i :: HasTable(mem1, pd, q / 1024)
    requires SlotDrawn(stock1, mem1, mem2, pd, (p + i) / 1024, stock2)
    requires KeepsTables(mem0, mem1, pd) && KeepsTables(mem1, mem2, pd)
    ensures TablesInTurn(stock0, mem0, mem2, pd, SlotsPassed(p, i + 1), stock2)
  {
    var s := (p + i) / 1024;
    SlotsBelow(p, i, s);
    if i > 0 && s + 1 == SlotsPassed(p, i) {
      assert (p + i - 1) / 1024 == s && HasTable(mem1, pd, s);
    } else {
      assert TableAt(mem0, mem1, pd, SlotsOf(p, i), s);
      OneMoreInTurn(stock0, mem0, mem1, stock1, mem2, stock2, free1, free2, pd, s);
    }
  }

  /** After the check of `i` pages there are no new tables in other slots. */
  lemma CheckTablesInTurn(stock0: Stock, mem0: Memory, free0: nat, mem1: Memory, free1: nat, stock1: Stock,
                          pd: nat, p: nat, i: nat)
    requires pd < FRAMES && p + i <= WINDOW_PAGE && TablesInTurn(stock0, mem0, mem1, pd, SlotsPassed(p, i), stock1)
    requires Visited(mem0, free0, mem1, free1, pd, SlotsOf(p, i))
    ensures TablesInTurn(stock0, mem0, mem1, pd, ENTRIES, stock1)
  {
    forall j: nat | SlotsPassed(p, i) <= j < ENTRIES
      ensures !NewTable(mem0, mem1, pd, j)
    {
      SlotsBelow(p, i, j);
      assert TableAt(mem0, mem1, pd, SlotsOf(p, i), j);
    }
    NoneInTurn(stock0, mem0, mem1, pd, SlotsPassed(p, i), ENTRIES, stock1);
  }

  /** Pages mapped since do not matter to the tables. */
  lemma TablesStayInTurn(stock0: Stock, mem0: Memory, mem1: Memory, mem2: Memory, pd: nat, stock1: Stock)
    requires pd < FRAMES && TablesInTurn(stock0, mem0, mem1, pd, ENTRIES, stock1) && mem2[pd] == mem1[pd]
    ensures TablesInTurn(stock0, mem0, mem2, pd, ENTRIES, stock1)
  {
    forall i: nat | i < ENTRIES
      ensures SameSlot(mem1, mem2, pd, i)
    {
    }
    SameTablesInTurn(stock0, mem0, mem1, mem2, pd, ENTRIES, stock1);
  }

  /** The frames of an allocation: first the new tables, slot by slot, then the pages, each time the next frame. */
  ghost predicate TakenInTurn(stock0: Stock, mem0: Memory, mem1: Memory, pd: nat, p: nat, n: nat, stock1: Stock)
    requires pd < FRAMES
  {
    exists stock :: TablesInTurn(stock0, mem0, mem1, pd, ENTRIES, stock) && PagesInTurn(stock, mem1, pd, p, n, stock1)
  }

  ghost function FrameBehind(mem: Memory, pd: nat, q: nat): nat
    requires pd < FRAMES
  {
    if q < FRAMES && Walk(mem, pd, q).Some? then Walk(mem, pd, q).value else 0
  }

  /** The allocator once the frames of pages `p .. p + n - 1` have been drawn, page by page. */
  ghost function AfterPages(stock0: Stock, mem: Memory, pd: nat, p: nat, n: nat): Stock
    requires pd < FRAMES
  {
    if n == 0 then stock0
    else Drawn(AfterPages(stock0, mem, pd, p, n - 1), FrameBehind(mem, pd, p + n - 1))
  }

  ghost predicate PageInTurn(stock0: Stock, mem: Memory, pd: nat, p: nat, k: nat)
    requires pd < FRAMES
  {
    Draws(AfterPages(stock0, mem, pd, p, k), FrameBehind(mem, pd, p + k))
  }

  /** The pages are on the next frames, page by page, and nothing else has been drawn. */
  ghost predicate PagesInTurn(stock0: Stock, mem: Memory, pd: nat, p: nat, n: nat, stock1: Stock)
    requires pd < FRAMES
  {
    stock1 == AfterPages(stock0, mem, pd, p, n) && forall k: nat | k < n :: PageInTurn(stock0, mem, pd, p, k)
  }

  lemma {:induction false} SameAfterPages(stock0: Stock, mem1: Memory, mem2: Memory, pd: nat, p: nat, n: nat)
    requires pd < FRAMES && p + n <= WINDOW_PAGE && SameOutside(mem1, mem2, pd, p + n, 1)
    ensures forall k: nat | k <= n :: AfterPages(stock0, mem2, pd, p, k) == AfterPages(stock0, mem1, pd, p, k)
  {
    var k := 0;
    while k < n
      invariant k <= n
      invariant forall j: nat | j <= k :: AfterPages(stock0, mem2, pd, p, j) == AfterPages(stock0, mem1, pd, p, j)
    {
      assert SamePage(mem1, mem2, pd, p + k);
      k := k + 1;
    }
  }

  lemma OneMorePageInTurn(stock0: Stock, mem1: Memory, stock1: Stock, mem2: Memory, stock2: Stock,
                          pd: nat, p: nat, n: nat)
    requires pd < FRAMES && p + n < WINDOW_PAGE && PagesInTurn(stock0, mem1, pd, p, n, stock1)
    requires SameOutside(mem1, mem2, pd, p + n, 1) && Draws(stock1, FrameBehind(mem2, pd, p + n))
    requires stock2 == Drawn(stock1, FrameBehind(mem2, pd, p + n))
    ensures PagesInTurn(stock0, mem2, pd, p, n + 1, stock2)
  {
    SameAfterPages(stock0, mem1, mem2, pd, p, n);
    forall k: nat | k < n + 1
      ensures PageInTurn(stock0, mem2, pd, p, k)
    {
      if k < n {
        assert PageInTurn(stock0, mem1, pd, p, k) && SamePage(mem1, mem2, pd, p + k);
      }
    }
  }

  /** A new table: what it does to everything that is kept track of. */
  lemma TableCreated(mem: Memory, pd: nat, top: nat, frames: Frames, owner: map<nat, Owner>, free: nat, stock: Stock,
                     i: nat, f: nat)
    requires Sound(mem, pd, top, frames, owner) && TableFrames(mem, pd) <= frames.used
    requires i < SELF_MAP && !HasTable(mem, pd, i) && f in frames.Free() && f < FRAMES
    requires stock.used == frames.used && Draws(stock, f)
    ensures f != pd
    ensures var mem' := WithTable(mem, pd, i, f);
            && Sound(mem', pd, top, frames.(used := frames.used + {f}), owner[f := PageTable(i)])
            && HasTable(mem', pd, i) && OnlyTables(mem, frames.used, mem', frames.used + {f}, pd)
            && Visited(mem, free + 1, mem', free, pd, {i}) && SlotDrawn(stock, mem, mem', pd, i, Drawn(stock, f))
  {
    WithTableSound(mem, pd, top, frames, owner, i, f);
    TableHung(mem, free, pd, i, f);
    MappedEntryFields(f);
    assert TableFrame(WithTable(mem, pd, i, f), pd, i) == f;
  }

  class Mmu {
    const frames: PageFrameAllocator
    /** Physical memory, as far as it holds page tables. */
    var mem: Memory
    /** The frame of the active directory. */
    var pd: nat
    /** The last page of the identity map made at installation. */
    ghost var top: nat
    /** The owner of each frame in use. */
    ghost var owner: map<nat, Owner>

    ghost function Repr(): set<object> {
      {this} + frames.Repr()
    }

    ghost function FrameSets(): Frames
      reads frames.usable, frames.used
    {
      Frames(frames.Usable(), frames.Used())
    }

    ghost function Stocked(): Stock
      reads frames, frames.usable, frames.used
    {
      Stock(frames.Usable(), frames.Used(), FrameToIndex(frames.lastAllocFrame))
    }

    /** How many frames are free. */
    ghost function FreeCount(): nat
      reads frames, frames.usable, frames.used
    {
      Count(frames.Free(), FRAMES)
    }

    lemma FreeCountIsSize()
      requires frames.Valid()
      ensures FreeCount() == |frames.Free()|
    {
      CountIsSize(frames.Free(), FRAMES);
    }

    /** Paging is on and the address space is sound. */
    ghost predicate Valid()
      reads Repr()
    {
      frames.Valid() && Sound(mem, pd, top, FrameSets(), owner)
    }

    constructor (memory: Memory)
      ensures frames.Valid() && fresh(Repr())
      ensures mem == memory && frames.Usable() == {} && frames.Used() == {} && frames.lastAllocFrame == 0
    {
      frames := new PageFrameAllocator();
      mem := memory;
      pd := 0;
    }

    // ----- Access through virtual addresses -----

    method LoadWord(va: Word) returns (w: Word)
      requires pd < FRAMES && WalkWord(mem, pd, va).Some?
      ensures w == mem[WalkWord(mem, pd, va).value.0][WalkWord(mem, pd, va).value.1]
    {
      var (f, i) := WalkWord(mem, pd, va).value;
      w := mem[f][i];
    }

    method StoreWord(va: Word, w: Word)
      requires pd < FRAMES && WalkWord(mem, pd, va).Some?
      modifies this`mem
      ensures var (f, i) := WalkWord(old(mem), pd, va).value;
              mem == old(mem)[f := old(mem)[f][i := w]]
    {
      var (f, i) := WalkWord(mem, pd, va).value;
      mem := mem[f := mem[f][i := w]];
    }

    /** Zeroes table `i` through the self-map. */
    method ClearTable(i: nat)
      requires SelfMapped(mem, pd) && i < SELF_MAP && HasTable(mem, pd, i) && TableFrame(mem, pd, i) != pd
      modifies this`mem
      ensures mem == old(mem)[TableFrame(old(mem), pd, i) := Zeros(ENTRIES)]
    {
      ghost var f := TableFrame(mem, pd, i);
      for j := 0 to ENTRIES
        invariant forall g: nat | g < FRAMES && g != f :: mem[g] == old(mem)[g]
        invariant forall k: nat | k < j :: mem[f][k] == 0
      {
        SelfMap(mem, pd, i, j);
        StoreWord(EntryAddress(i, j), 0);
      }
      assert mem[f] == Zeros(ENTRIES);
    }

    // ----- Tables -----

    /** One frame from the allocator, or a panic when none is free. */
    method NewFrame() returns (r: Option<nat>)
      requires frames.Valid()
      modifies frames.Repr()
      ensures frames.Valid()
      ensures r.None? <==> old(frames.Free()) == {}
      ensures r.None? ==> frames.Free() == {} && FrameSets() == old(FrameSets()) && old(FreeCount()) == 0
      ensures r.Some? ==>
                var f := FrameToIndex(r.value);
                && r.value == f * 0x1000 && f < FRAMES
                && f in old(FrameSets()).Free()
                && IsNextFit(old(FrameSets()).Free(), 1, FrameToIndex(old(frames.lastAllocFrame)), f)
                && frames.lastAllocFrame == r.value
                && FrameSets() == old(FrameSets()).(used := old(FrameSets()).used + {f})
                && FreeCount() == old(FreeCount()) - 1
                && Draws(old(Stocked()), f) && Stocked() == Drawn(old(Stocked()), f)
    {
      ghost var free := frames.Free();
      assert FrameSets().Free() == free;
      forall w: nat
        ensures Window(free, w, 1) <==> w in free
      {
        assert w in Range(w, 1);
      }
      CountNone(free, FRAMES);
      var past;
      r, past := frames.Alloc(1);
      if r.Some? {
        assert Range(FrameToIndex(r.value), 1) == {FrameToIndex(r.value)};
        OneFrameLess(old(FrameSets()), FrameToIndex(r.value));
        assert frames.Free() == FrameSets().Free();
      }
    }

    method GetOrCreateTable(i: nat) returns (ok: bool)
      requires Valid()
      modifies Repr()
      ensures ok <==> i < ENTRIES && (HasTable(old(mem), old(pd), i) || old(frames.Free()) != {})
      ensures !ok && i < ENTRIES ==> frames.Free() == {} && old(FreeCount()) == 0
      ensures ok ==>
                && Valid() && pd == old(pd) && top == old(top)
                && HasTable(mem, pd, i)
                && frames.Usable() == old(frames.Usable())
                && OnlyTables(old(mem), old(frames.Used()), mem, frames.Used(), pd)
                && Visited(old(mem), old(FreeCount()), mem, FreeCount(), pd, {i})
                && SlotDrawn(old(Stocked()), old(mem), mem, pd, i, Stocked())
    {
      if i > 1023 {
        return false;
      }
      IdentityDirectory(i);
      var pde := LoadWord(pd * 0x1000 + 4 * i);
      if Present(pde) {
        TablesUsed();
        NothingLacking(mem, FreeCount(), pd, i);
        return true;
      }
      ok := CreateTable(i);
    }

    method CreateTable(i: nat) returns (ok: bool)
      requires Valid() && i < SELF_MAP && !HasTable(mem, pd, i)
      modifies Repr()
      ensures ok <==> old(frames.Free()) != {}
      ensures !ok ==> frames.Free() == {} && old(FreeCount()) == 0
      ensures ok ==>
                && Valid() && pd == old(pd) && top == old(top)
                && HasTable(mem, pd, i)
                && frames.Usable() == old(frames.Usable())
                && OnlyTables(old(mem), old(frames.Used()), mem, frames.Used(), pd)
                && Visited(old(mem), old(FreeCount()), mem, FreeCount(), pd, {i})
                && SlotDrawn(old(Stocked()), old(mem), mem, pd, i, Stocked())
    {
      ghost var before, was, stock := FrameSets(), mem, Stocked();
      TablesUsed();
      assert IdentityPage(was, pd, top, pd);
      var frame := NewFrame();
      if frame.None? {
        return false;
      }
      ghost var f := FrameToIndex(frame.value);
      TableCreated(was, pd, top, before, owner, FreeCount(), stock, i, f);
      HangTable(i, frame.value);
      owner := owner[f := PageTable(i)];
      ok := true;
    }

    /** Points directory slot `i` at a frame and clears the table found there. */
    method HangTable(i: nat, frame: nat)
      requires SelfMapped(mem, pd) && i < SELF_MAP
      requires pd < WINDOW_PAGE && Walk(mem, pd, pd) == Some(pd)
      requires frame == FrameToIndex(frame) * 0x1000 && FrameToIndex(frame) < FRAMES && FrameToIndex(frame) != pd
      modifies this`mem
      ensures mem == WithTable(old(mem), pd, i, FrameToIndex(frame))
    {
      ghost var f := FrameToIndex(frame);
      IdentityWord(i);
      StoreWord(pd * 0x1000 + 4 * i, SetFlags(PageEntry(frame), PRESENT + READ_WRITE));
      MappedEntryForm(f);
      MappedEntryFields(f);
      ClearTable(i);
    }

    /** The directory's own page is in the identity map, so its physical address works as a virtual one. */
    lemma IdentityDirectory(i: nat)
      requires Valid() && i < ENTRIES
      ensures pd * 0x1000 + 4 * i < 0x1_0000_0000
      ensures WalkWord(mem, pd, pd * 0x1000 + 4 * i) == Some((pd, i))
    {
      assert IdentityPage(mem, pd, top, pd);
      IdentityWord(i);
    }

    lemma IdentityWord(i: nat)
      requires i < ENTRIES && pd < WINDOW_PAGE && Walk(mem, pd, pd) == Some(pd)
      ensures pd * 0x1000 + 4 * i < 0x1_0000_0000
      ensures WalkWord(mem, pd, pd * 0x1000 + 4 * i) == Some((pd, i))
    {
      assert (pd * 0x1000 + 4 * i) / 0x1000 == pd;
    }

    lemma TablesUsed()
      requires Valid()
      ensures TableFrames(mem, pd) <= frames.Used()
    {
      TablesAreOwned(mem, pd, owner);
    }

    // ----- Mapping and unmapping -----

    /** The body of the mapping loop: a fresh frame for one page. */
    method MapPage(pde: nat, pte: nat) returns (ok: bool)
      requires Valid() && pde < SELF_MAP && pte < ENTRIES && HasTable(mem, pd, pde)
      requires top < pde * 1024 + pte && Walk(mem, pd, pde * 1024 + pte).None?
      modifies Repr()
      ensures ok <==> old(frames.Free()) != {}
      ensures !ok ==> frames.Free() == {} && old(FreeCount()) == 0
      ensures ok ==>
                var p := pde * 1024 + pte;
                && Valid() && pd == old(pd) && top == old(top)
                && mem[pd] == old(mem)[pd]
                && SameOutside(old(mem), mem, pd, p, 1)
                && Writable(mem, pd, p) && Walk(mem, pd, p).value !in old(frames.Used())
                && frames.Usable() == old(frames.Usable())
                && frames.Used() == old(frames.Used()) + {Walk(mem, pd, p).value}
                && FreeCount() == old(FreeCount()) - 1
                && Draws(old(Stocked()), FrameBehind(mem, pd, p))
                && Stocked() == Drawn(old(Stocked()), FrameBehind(mem, pd, p))
    {
      ghost var before, was, p := FrameSets(), mem, pde * 1024 + pte;
      assert p / 1024 == pde && p % 1024 == pte;
      var frame := NewFrame();
      if frame.None? {
        return false;
      }
      ghost var f := FrameToIndex(frame.value);
      MapSound(was, pd, top, before, owner, p, f);
      SelfMap(mem, pd, pde, pte);
      StoreWord(EntryAddress(pde, pte), SetFlags(PageEntry(frame.value), PRESENT + READ_WRITE));
      MappedEntryForm(f);
      assert mem == WithEntry(was, pd, p, MappedEntry(f));
      owner := owner[f := Page(p)];
      ok := true;
    }

    /** Maps `n` pages from page `p` on, each to a fresh frame. */
    method AllocatePages(p: nat, n: nat) returns (ok: bool)
      requires Valid()
      requires top < p && p + n <= WINDOW_PAGE && Run(mem, pd, p, n)
      requires forall q: nat | p <= q < p + n :: HasTable(mem, pd, q / 1024)
      modifies Repr()
      ensures ok <==> old(FreeCount()) >= n
      ensures !ok ==> frames.Free() == {}
      ensures ok ==>
                && Valid() && pd == old(pd) && top == old(top)
                && mem[pd] == old(mem)[pd]
                && frames.Usable() == old(frames.Usable())
                && FreshPages(old(mem), old(frames.Used()), mem, frames.Used(), pd, p, n)
                && FreeCount() == old(FreeCount()) - n
                && PagesInTurn(old(Stocked()), mem, pd, p, n, Stocked())
    {
      var currPde: nat, currPte: nat := p / 1024, p % 1024;
      var pagesLeft: nat := n;
      NoFreshPages(mem, frames.Used(), pd, p);
      while pagesLeft > 0
        invariant pagesLeft <= n
        invariant Valid() && pd == old(pd) && top == old(top)
        invariant mem[pd] == old(mem)[pd]
        invariant currPte < ENTRIES && currPde * 1024 + currPte == p + (n - pagesLeft)
        invariant frames.Usable() == old(frames.Usable()) && FreeCount() == old(FreeCount()) - (n - pagesLeft)
        invariant FreshPages(old(mem), old(frames.Used()), mem, frames.Used(), pd, p, n - pagesLeft)
        invariant PagesInTurn(old(Stocked()), mem, pd, p, n - pagesLeft, Stocked())
      {
        ghost var q, k := p + (n - pagesLeft), n - pagesLeft;
        assert q / 1024 == currPde && q % 1024 == currPte;
        assert HasTable(old(mem), pd, q / 1024);
        assert Unmapped(old(mem), pd, q) && SamePage(old(mem), mem, pd, q);
        ghost var was, used, stock := mem, frames.Used(), Stocked();
        ok := MapPage(currPde, currPte);
        if !ok {
          return;
        }
        OneMoreFreshPage(old(mem), old(frames.Used()), was, used, mem, frames.Used(), pd, p, k);
        OneMorePageInTurn(old(Stocked()), was, stock, mem, Stocked(), pd, p, k);
        currPte := currPte + 1;
        pagesLeft := pagesLeft - 1;
        if currPte > 1023 {
          currPde := currPde + 1;
          currPte := 0;
        }
      }
      ok := true;
    }

    /** The body of the freeing loop: give back the page's frame and clear its entry. */
    method UnmapPage(p: nat)
      requires Valid() && top < p < WINDOW_PAGE && Walk(mem, pd, p).Some?
      modifies Repr()
      ensures Valid() && pd == old(pd) && top == old(top) && frames.lastAllocFrame == old(frames.lastAllocFrame)
      ensures mem[pd] == old(mem)[pd]
      ensures SameOutside(old(mem), mem, pd, p, 1) && Walk(mem, pd, p).None?
      ensures frames.Usable() == old(frames.Usable())
      ensures frames.Used() == old(frames.Used()) - {Walk(old(mem), pd, p).value}
    {
      var pdeIndex, pteIndex := p / 1024, p % 1024;
      SelfMap(mem, pd, pdeIndex, pteIndex);
      var pte := LoadWord(EntryAddress(pdeIndex, pteIndex));
      ghost var before, was := FrameSets(), mem;
      UnmapSound(was, pd, top, before, owner, p);
      frames.FreeFrames(FrameOf(pte) * 0x1000, 1);
      StoreWord(EntryAddress(pdeIndex, pteIndex), 0);
      assert mem == WithEntry(was, pd, p, 0);
      assert Range(FrameOf(pte), 1) == {FrameOf(pte)};
      assert FrameSets() == before.(used := before.used - {FrameOf(pte)});
      owner := owner - {FrameOf(pte)};
    }

    /** Unmaps `n` pages and returns their frames; -1 for an empty range. */
    method Pfree(va: nat, n: nat) returns (status: int)
      requires Valid()
      requires n > 0 ==> top < va / 0x1000 && va / 0x1000 + n <= WINDOW_PAGE
      requires forall q: nat | va / 0x1000 <= q < va / 0x1000 + n :: !Unmapped(mem, pd, q)
      modifies Repr()
      ensures Valid() && pd == old(pd) && top == old(top) && frames.lastAllocFrame == old(frames.lastAllocFrame)
      ensures status == if n == 0 then -1 else 0
      ensures mem[pd] == old(mem)[pd]
      ensures frames.Usable() == old(frames.Usable())
      ensures n == 0 ==> mem == old(mem) && frames.Used() == old(frames.Used())
      ensures n > 0 ==> FreedPages(old(mem), old(frames.Used()), mem, frames.Used(), pd, va / 0x1000, n)
    {
      if n == 0 {
        return -1;
      }
      ghost var p := va / 0x1000;
      var left: nat, virtualPage := n, va / 0x1000;
      assert PageFramesIn(mem, pd, p, 0) == {};
      while left > 0
        invariant left <= n && virtualPage == p + (n - left)
        invariant Valid() && pd == old(pd) && top == old(top) && frames.lastAllocFrame == old(frames.lastAllocFrame)
        invariant mem[pd] == old(mem)[pd]
        invariant frames.Usable() == old(frames.Usable())
        invariant FreedPages(old(mem), old(frames.Used()), mem, frames.Used(), pd, p, n - left)
      {
        left := left - 1;
        ghost var was, used := mem, frames.Used();
        assert !Unmapped(old(mem), pd, virtualPage) && SamePage(old(mem), mem, pd, virtualPage);
        UnmapPage(virtualPage);
        OneMoreFreedPage(old(mem), old(frames.Used()), was, used, mem, frames.Used(), pd, p, n - left - 1);
        virtualPage := virtualPage + 1;
      }
      status := 0;
    }

    // ----- Page allocation -----

    method EntryPresent(pde: nat, pte: nat) returns (present: bool)
      requires SelfMapped(mem, pd) && pde < ENTRIES && pte < ENTRIES && HasTable(mem, pd, pde)
      ensures present <==> !Unmapped(mem, pd, pde * 1024 + pte)
    {
      SelfMap(mem, pd, pde, pte);
      var entry := LoadWord(EntryAddress(pde, pte));
      assert (pde * 1024 + pte) / 1024 == pde && (pde * 1024 + pte) % 1024 == pte;
      present := Present(entry);
    }

    /**
     One table of the scan. `count` unmapped pages precede the table; on success
     the run of `n` pages starts at page `start`.
     */
    method ScanTable(pde: nat, n: nat, count0: nat, start0: nat) returns (found: bool, count: nat, start: nat)
      requires SelfMapped(mem, pd) && pde < ENTRIES && HasTable(mem, pd, pde)
      requires Scanned(mem, pd, n, pde * 1024, count0)
      requires count0 > 0 ==> start0 == pde * 1024 - count0
      ensures found ==> LowestRun(mem, pd, n, start) && start + n <= (pde + 1) * 1024
      ensures !found ==> Scanned(mem, pd, n, (pde + 1) * 1024, count)
      ensures !found && count > 0 ==> start == (pde + 1) * 1024 - count
    {
      found, count, start := false, count0, start0;
      for pte := 0 to ENTRIES
        invariant !found
        invariant Scanned(mem, pd, n, pde * 1024 + pte, count)
        invariant count > 0 ==> start == pde * 1024 + pte - count
      {
        found, count, start := ScanEntry(pde, pte, n, count, start);
        if found {
          return;
        }
      }
    }

    /** One entry of the scan. */
    method ScanEntry(pde: nat, pte: nat, n: nat, count0: nat, start0: nat) returns (found: bool, count: nat, start: nat)
      requires SelfMapped(mem, pd) && pde < ENTRIES && pte < ENTRIES && HasTable(mem, pd, pde)
      requires Scanned(mem, pd, n, pde * 1024 + pte, count0)
      requires count0 > 0 ==> start0 == pde * 1024 + pte - count0
      ensures found ==> LowestRun(mem, pd, n, start) && start + n == pde * 1024 + pte + 1
      ensures !found ==> Scanned(mem, pd, n, pde * 1024 + pte + 1, count)
      ensures !found && count > 0 ==> start == pde * 1024 + pte + 1 - count
    {
      found, count, start := false, count0, start0;
      ScanStep(mem, pd, n, pde * 1024 + pte, count);
      var present := EntryPresent(pde, pte);
      if !present {
        if count == 0 {
          start := pde * 1024 + pte;
        }
        count := count + 1;
        found := count == n;
      } else if count > 0 {
        count := 0;
      }
    }

    /**
     Allocation anywhere: the lowest run of `n` unmapped pages, null if there is
     none. The scan creates the tables it walks through, which is why the run
     never reaches the self-map window.
     */
    method Palloc(n: nat) returns (r: Outcome)
      requires Valid()
      modifies Repr()
      ensures r.Panicked? ==> frames.Free() == {}
      ensures old(pd) < FRAMES && (r.Panicked? <==> old(FreeCount()) < FramesNeeded(old(mem), old(pd), n))
      ensures r.Done? ==> FreeCount() + FramesNeeded(old(mem), old(pd), n) == old(FreeCount())
      ensures r.Done? ==> Valid() && pd == old(pd) && top == old(top) && frames.Usable() == old(frames.Usable())
      ensures n == 0 ==> mem == old(mem) && frames.Used() == old(frames.Used())
      ensures r.Done? && n > 0 ==> Sought(old(mem), mem, pd, n, r.address / 0x1000)
      ensures r.Done? ==>
                var taken := if r.address == 0 then 0 else n;
                TakenInTurn(old(Stocked()), old(mem), mem, pd, r.address / 0x1000, taken, Stocked())
      ensures r == Done(0) ==>
                && OnlyTables(old(mem), old(frames.Used()), mem, frames.Used(), pd)
                && (n > 0 ==> forall s: nat | s + n <= WINDOW_PAGE :: !Run(old(mem), pd, s, n))
      ensures r.Done? && r.address != 0 ==>
                var p := r.address / 0x1000;
                && n > 0 && r.address == p * 0x1000 && top < p && p + n <= WINDOW_PAGE
                && LowestRun(old(mem), pd, n, p)
                && Allocated(old(mem), old(frames.Used()), mem, frames.Used(), pd, p, n)
    {
      if n == 0 {
        TablesUsed();
        NoneInTurn(Stocked(), mem, mem, pd, 0, ENTRIES, Stocked());
        assert PagesInTurn(Stocked(), mem, pd, 0, 0, Stocked());
        return Done(0);
      }
      ghost var slots: nat;
      var found, start, panicked;
      found, start, panicked, slots := FindRun(n);
      if panicked {
        return Panicked;
      }
      SoughtInVain(old(mem), old(frames.Used()), mem, frames.Used(), old(FreeCount()), FreeCount(), pd, n, slots);
      ScanTablesInTurn(old(Stocked()), old(mem), old(FreeCount()), mem, FreeCount(), Stocked(), pd, slots);
      ghost var stock := Stocked();
      if !found {
        assert PagesInTurn(stock, mem, pd, 0, 0, stock);
        return Done(0);
      }
      ghost var was, used := mem, frames.Used();
      RunUnderTables(old(mem), mem, pd, n, start, slots);
      assert IdentityPage(mem, pd, top, start) && Unmapped(mem, pd, start);
      var ok := AllocatePages(start, n);
      if !ok {
        return Panicked;
      }
      TablesThenPages(old(mem), old(frames.Used()), was, used, mem, frames.Used(), pd, start, n);
      SoughtAndFound(old(mem), was, used, mem, frames.Used(), pd, n, start);
      TablesStayInTurn(old(Stocked()), old(mem), was, mem, pd, stock);
      assert start * 0x1000 / 0x1000 == start;
      return Done(start * 0x1000);
    }

    /** One turn of the scan over the directory: the table is there, then all its entries are looked at. */
    method ScanNext(pde: nat, n: nat, count0: nat, start0: nat, ghost mem0: Memory, ghost used0: set<nat>,
                    ghost free0: nat, ghost stock0: Stock)
      returns (found: bool, count: nat, start: nat, panicked: bool)
      requires Valid() && pde < ENTRIES && n > 0 && OnlyTables(mem0, used0, mem, frames.Used(), pd)
      requires TablesUpTo(mem, pd, pde)
      requires Scanned(mem, pd, n, pde * 1024, count0) && (count0 > 0 ==> start0 == pde * 1024 - count0)
      requires Visited(mem0, free0, mem, FreeCount(), pd, Range(0, pde))
      requires TablesInTurn(stock0, mem0, mem, pd, pde, Stocked())
      modifies Repr()
      ensures panicked ==> frames.Free() == {} && free0 < Lacks(mem0, old(pd), ScannedSlots(mem0, old(pd), n))
      ensures !panicked ==>
                && Valid() && pd == old(pd) && top == old(top) && frames.Usable() == old(frames.Usable())
                && OnlyTables(mem0, used0, mem, frames.Used(), pd) && TablesUpTo(mem, pd, pde + 1)
                && Visited(mem0, free0, mem, FreeCount(), pd, Range(0, pde + 1))
                && TablesInTurn(stock0, mem0, mem, pd, pde + 1, Stocked())
      ensures !panicked && found ==> ScanOver(mem0, pd, n, true, start, pde + 1) && start + n <= (pde + 1) * 1024
      ensures !panicked && !found ==>
                Scanned(mem, pd, n, (pde + 1) * 1024, count) && (count > 0 ==> start == (pde + 1) * 1024 - count)
    {
      found, count, start, panicked := false, count0, start0, false;
      ghost var was, used, free, stock := mem, frames.Used(), FreeCount(), Stocked();
      SlotScanned(mem0, was, pd, n, pde, count);
      var ok := GetOrCreateTable(pde);
      if !ok {
        TooFew(mem0, free0, was, old(pd), Range(0, pde), pde, ScannedSlots(mem0, old(pd), n));
        panicked := true;
        return;
      }
      OnlyTablesTwice(mem0, used0, was, used, mem, frames.Used(), pd);
      SameScan(was, mem, pd, n, pde * 1024, count);
      StillTables(was, mem, pd, pde);
      ScanInTurn(stock0, mem0, free0, was, free, stock, mem, FreeCount(), Stocked(), pd, pde);
      VisitedMore(mem0, free0, was, free, mem, FreeCount(), pd, Range(0, pde), pde);
      assert Range(0, pde) + {pde} == Range(0, pde + 1);
      found, count, start := ScanTable(pde, n, count, start);
      if found {
        ScanFound(mem0, mem, pd, n, start, pde);
      }
    }

    /** The scan over all tables, creating the missing ones. */
    method FindRun(n: nat) returns (found: bool, start: nat, panicked: bool, ghost slots: nat)
      requires Valid() && n > 0
      modifies Repr()
      ensures panicked ==> frames.Free() == {}
      ensures old(pd) < FRAMES
      ensures panicked ==> old(FreeCount()) < Lacks(old(mem), old(pd), ScannedSlots(old(mem), old(pd), n))
      ensures !panicked ==>
                && Valid() && pd == old(pd) && top == old(top) && frames.Usable() == old(frames.Usable())
                && OnlyTables(old(mem), old(frames.Used()), mem, frames.Used(), pd)
                && slots <= ENTRIES && TablesUpTo(mem, pd, slots)
                && Visited(old(mem), old(FreeCount()), mem, FreeCount(), pd, Range(0, slots))
                && TablesInTurn(old(Stocked()), old(mem), mem, pd, slots, Stocked())
                && ScanOver(old(mem), pd, n, found, start, slots)
                && (found ==> start + n <= slots * 1024)
    {
      var pde: nat, count: nat := 0, 0;
      found, start, panicked, slots := false, 0, false, 0;
      TablesUsed();
      VisitedNone(mem, FreeCount(), pd);
      assert Range(0, 0) == {};
      while pde < 1024 && !found
        invariant slots == pde <= 1024
        invariant Valid() && pd == old(pd) && top == old(top) && frames.Usable() == old(frames.Usable())
        invariant OnlyTables(old(mem), old(frames.Used()), mem, frames.Used(), pd)
        invariant TablesInTurn(old(Stocked()), old(mem), mem, pd, pde, Stocked())
        invariant TablesUpTo(mem, pd, pde) && Visited(old(mem), old(FreeCount()), mem, FreeCount(), pd, Range(0, pde))
        invariant !found ==> Scanned(mem, pd, n, pde * 1024, count) && (count > 0 ==> start == pde * 1024 - count)
        invariant found ==> ScanOver(old(mem), pd, n, true, start, pde) && start + n <= pde * 1024
      {
        found, count, start, panicked :=
          ScanNext(pde, n, count, start, old(mem), old(frames.Used()), old(FreeCount()), old(Stocked()));
        if panicked {
          return;
        }
        pde, slots := pde + 1, pde + 1;
      }
      if !found {
        ScanInVain(old(mem), mem, pd, n, count);
      }
    }

    /** Whether pages `p .. p + n - 1` are all unmapped, creating tables on the way. */
    method CheckRun(p: nat, n: nat) returns (free: bool, panicked: bool)
      requires Valid() && p + n <= WINDOW_PAGE
      modifies Repr()
      ensures panicked ==> frames.Free() == {}
      ensures old(pd) < FRAMES
      ensures panicked ==>
                old(FreeCount()) < Lacks(old(mem), old(pd), SlotsOf(p, Looks(old(mem), old(pd), p, n)))
      ensures !panicked ==>
                && Valid() && pd == old(pd) && top == old(top) && frames.Usable() == old(frames.Usable())
                && OnlyTables(old(mem), old(frames.Used()), mem, frames.Used(), pd)
                && FreeCount() + Lacks(old(mem), old(pd), SlotsOf(p, Looks(old(mem), old(pd), p, n)))
                   == old(FreeCount())
                && TablesInTurn(old(Stocked()), old(mem), mem, pd, ENTRIES, Stocked())
                && TablesMade(old(mem), mem, pd, SlotsOf(p, Looks(old(mem), pd, p, n)))
                && (free <==> Run(old(mem), pd, p, n))
                && (free ==> Run(mem, pd, p, n) && forall q: nat | p <= q < p + n :: HasTable(mem, pd, q / 1024))
    {
      TablesUsed();
      VisitedNone(mem, FreeCount(), pd);
      assert SlotsOf(p, 0) == {};
      NoneInTurn(Stocked(), mem, mem, pd, 0, SlotsPassed(p, 0), Stocked());
      panicked := false;
      for i := 0 to n
        invariant !panicked
        invariant Valid() && pd == old(pd) && top == old(top) && frames.Usable() == old(frames.Usable())
        invariant OnlyTables(old(mem), old(frames.Used()), mem, frames.Used(), pd)
        invariant TablesInTurn(old(Stocked()), old(mem), mem, pd, SlotsPassed(p, i), Stocked())
        invariant Visited(old(mem), old(FreeCount()), mem, FreeCount(), pd, SlotsOf(p, i))
        invariant forall q: nat | p <= q < p + i :: HasTable(mem, pd, q / 1024)
        invariant Run(mem, pd, p, i)
      {
        free, panicked := CheckPage(p, n, i, old(mem), old(frames.Used()), old(FreeCount()), old(Stocked()));
        if panicked {
          return;
        }
        if !free {
          CheckTablesInTurn(old(Stocked()), old(mem), old(FreeCount()), mem, FreeCount(), Stocked(), pd, p, i + 1);
          return;
        }
      }
      CheckTablesInTurn(old(Stocked()), old(mem), old(FreeCount()), mem, FreeCount(), Stocked(), pd, p, n);
      SameRuns(old(mem), mem, pd, p, n);
      LooksPast(old(mem), pd, p, n, n);
      free := true;
    }

    /** One page of the check: its table is there, then its entry is looked at. */
    method CheckPage(p: nat, n: nat, i: nat, ghost mem0: Memory, ghost used0: set<nat>, ghost free0: nat,
                     ghost stock0: Stock)
      returns (free: bool, panicked: bool)
      requires Valid() && p + n <= WINDOW_PAGE && i < n
      requires OnlyTables(mem0, used0, mem, frames.Used(), pd) && Run(mem, pd, p, i)
      requires Visited(mem0, free0, mem, FreeCount(), pd, SlotsOf(p, i))
      requires TablesInTurn(stock0, mem0, mem, pd, SlotsPassed(p, i), Stocked())
      requires forall q: nat | p <= q < p + i :: HasTable(mem, pd, q / 1024)
      modifies Repr()
      ensures panicked ==>
                && frames.Free() == {}
                && free0 < Lacks(mem0, old(pd), SlotsOf(p, Looks(mem0, old(pd), p, n)))
      ensures !panicked ==>
                && Valid() && pd == old(pd) && top == old(top) && frames.Usable() == old(frames.Usable())
                && OnlyTables(mem0, used0, mem, frames.Used(), pd)
                && Visited(mem0, free0, mem, FreeCount(), pd, SlotsOf(p, i + 1))
                && TablesInTurn(stock0, mem0, mem, pd, SlotsPassed(p, i + 1), Stocked())
                && (free <==> Unmapped(mem0, pd, p + i))
      ensures !panicked && free ==>
                Run(mem, pd, p, i + 1) && forall q: nat | p <= q < p + i + 1 :: HasTable(mem, pd, q / 1024)
      ensures !panicked && !free ==> SlotsOf(p, i + 1) == SlotsOf(p, Looks(mem0, pd, p, n))
    {
      ghost var was, used, count, stock := mem, frames.Used(), FreeCount(), Stocked();
      SlotLookedAt(mem0, was, pd, p, n, i);
      var ok := GetOrCreateTable((p + i) / 1024);
      if !ok {
        TooFew(mem0, free0, was, old(pd), SlotsOf(p, i), (p + i) / 1024, SlotsOf(p, Looks(mem0, old(pd), p, n)));
        return false, true;
      }
      CheckInTurn(stock0, mem0, free0, was, count, stock, mem, FreeCount(), Stocked(), pd, p, i);
      PageReached(mem0, used0, free0, was, used, count, mem, frames.Used(), FreeCount(), pd, p, i);
      assert (p + i) / 1024 * 1024 + (p + i) % 1024 == p + i;
      var present := EntryPresent((p + i) / 1024, (p + i) % 1024);
      free, panicked := !present, false;
    }

    /**
     Allocation at a given address: null if the address is unaligned or any of the
     pages is mapped. The range must stay clear of the self-map window.
     */
    method PallocAt(va: nat, n: nat) returns (r: Outcome)
      requires Valid()
      requires va / 0x1000 + n <= WINDOW_PAGE
      modifies Repr()
      ensures r.Panicked? ==> frames.Free() == {}
      ensures old(pd) < FRAMES
      ensures r.Panicked? <==>
                va % 0x1000 == 0 && old(FreeCount()) < FramesNeededAt(old(mem), old(pd), va / 0x1000, n)
      ensures r.Done? ==> Valid() && pd == old(pd) && top == old(top) && frames.Usable() == old(frames.Usable())
      ensures r.Done? ==> (r.address != 0 <==> va != 0 && va % 0x1000 == 0 && Run(old(mem), pd, va / 0x1000, n))
      ensures r.Done? ==> TablesMade(old(mem), mem, pd, SlotsLooked(old(mem), pd, va, n))
      ensures r.Done? ==>
                var taken := if r.address == 0 then 0 else n;
                TakenInTurn(old(Stocked()), old(mem), mem, pd, va / 0x1000, taken, Stocked())
      ensures r == Done(0) ==> OnlyTables(old(mem), old(frames.Used()), mem, frames.Used(), pd)
      ensures r.Done? && r.address != 0 ==>
                && r.address == va && (n > 0 ==> top < va / 0x1000)
                && Allocated(old(mem), old(frames.Used()), mem, frames.Used(), pd, va / 0x1000, n)
    {
      TablesUsed();
      VisitedNone(mem, FreeCount(), pd);
      NoneInTurn(Stocked(), mem, mem, pd, 0, ENTRIES, Stocked());
      if va % 0x1000 != 0 {
        assert PagesInTurn(Stocked(), mem, pd, va / 0x1000, 0, Stocked());
        return Done(0);
      }
      var p := va / 0x1000;
      var free, panicked := CheckRun(p, n);
      if panicked {
        return Panicked;
      }
      ghost var stock := Stocked();
      assert PagesInTurn(stock, mem, pd, p, 0, stock);
      if !free || va == 0 {
        return Done(0);
      }
      ghost var was, used := mem, frames.Used();
      assert IdentityPage(mem, pd, top, p) && (n > 0 ==> Unmapped(mem, pd, p));
      if n > 0 {
        var ok := AllocatePages(p, n);
        if !ok {
          return Panicked;
        }
      } else {
        NoFreshPages(mem, used, pd, p);
      }
      TablesThenPages(old(mem), old(frames.Used()), was, used, mem, frames.Used(), pd, p, n);
      TablesStayInTurn(old(Stocked()), old(mem), was, mem, pd, stock);
      StillMade(old(mem), was, mem, pd, SlotsLooked(old(mem), pd, va, n));
      return Done(va);
    }
  }
}
