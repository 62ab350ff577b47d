/**
 Program segments: where they want to be, when a list of them can be loaded, and what
 it means that they are in memory. Memory contents are kept by physical address, so
 that the contents of one segment survive the loading of the next only because no
 frame has two owners.
 */
module ElfSegments {
  import opened PageFrames
  import opened PageTables
  import opened Mmus
  import opened PagingRuns

  /** A program segment: its address, alignment, bytes from the file and size in memory. */
  datatype Segment = Segment(vaddress: nat, alignment: nat, data: seq<nat>, memorySize: nat)

  /** The least number of pages that holds the segment. */
  function PageCount(s: Segment): (n: nat)
    ensures s.memorySize <= n * 0x1000 && (n > 0 ==> (n - 1) * 0x1000 < s.memorySize)
  {
    s.memorySize / 0x1000 + (if s.memorySize % 0x1000 != 0 then 1 else 0)
  }

  /** The segment's place in the address space; file contents do not exceed the size in memory. */
  predicate WellFormed(s: Segment) {
    s.vaddress / 0x1000 + PageCount(s) <= WINDOW_PAGE && |s.data| <= s.memorySize
  }

  /** What byte `x` of a loaded segment must be: file bytes, then zeros. */
  function Expected(s: Segment, x: nat): nat {
    if x < |s.data| then s.data[x] else 0
  }

  // ----- Physical contents seen through the page tables -----

  type Physical = map<nat, nat>

  ghost predicate Shown(data: Physical, mem: Memory, pd: nat, va: nat, v: nat)
    requires pd < FRAMES
  {
    && va / 0x1000 < FRAMES && Walk(mem, pd, va / 0x1000).Some?
    && var a := Walk(mem, pd, va / 0x1000).value * 0x1000 + va % 0x1000;
       a in data && data[a] == v
  }

  ghost predicate SegmentByte(data: Physical, mem: Memory, pd: nat, s: Segment, x: nat)
    requires pd < FRAMES
  {
    x < s.memorySize ==> Shown(data, mem, pd, s.vaddress + x, Expected(s, x))
  }

  /** The segment is in memory: its file bytes, then zeros. */
  ghost predicate SegmentShown(data: Physical, mem: Memory, pd: nat, s: Segment)
    requires pd < FRAMES
  {
    forall x: nat :: SegmentByte(data, mem, pd, s, x)
  }

  ghost predicate Dynamic(mem: Memory, pd: nat, top: nat, va: nat)
    requires pd < FRAMES
  {
    MappedAt(mem, pd, top, va / 0x1000)
  }

  ghost predicate AllDynamic(mem: Memory, pd: nat, top: nat, va: nat, n: nat)
    requires pd < FRAMES
  {
    forall w: nat | va <= w < va + n :: Dynamic(mem, pd, top, w)
  }

  /** Bytes of dynamic pages outside `lo .. hi - 1` are the same in both contents. */
  ghost predicate Untouched(data: Physical, data': Physical, mem: Memory, pd: nat, top: nat, lo: nat, hi: nat)
    requires pd < FRAMES
  {
    forall w: nat, v: nat :: UntouchedAt(data, data', mem, pd, top, lo, hi, w, v)
  }

  ghost predicate UntouchedAt(data: Physical, data': Physical, mem: Memory, pd: nat, top: nat, lo: nat, hi: nat,
                              w: nat, v: nat)
    requires pd < FRAMES
  {
    !(lo <= w < hi) && Dynamic(mem, pd, top, w) && Shown(data, mem, pd, w, v) ==> Shown(data', mem, pd, w, v)
  }

  /** Different bytes of dynamic pages are different bytes of physical memory. */
  lemma BytesApart(m: Mmu, va: nat, w: nat)
    requires m.Valid() && va != w
    requires Dynamic(m.mem, m.pd, m.top, va) && Dynamic(m.mem, m.pd, m.top, w)
    ensures Walk(m.mem, m.pd, va / 0x1000).value * 0x1000 + va % 0x1000
            != Walk(m.mem, m.pd, w / 0x1000).value * 0x1000 + w % 0x1000
  {
    var f, g := Walk(m.mem, m.pd, va / 0x1000).value, Walk(m.mem, m.pd, w / 0x1000).value;
    NoTwoOwners(m.mem, m.pd, m.top, m.FrameSets(), m.owner, va / 0x1000, f);
    FrameArithmetic(f, va % 0x1000);
    FrameArithmetic(g, w % 0x1000);
  }

  function ExtentOf(s: Segment): Extent {
    Extent(s.vaddress / 0x1000, PageCount(s))
  }

  /** The segment's pages are among those held. */
  ghost predicate Placed(held: set<Extent>, s: Segment) {
    s.vaddress % 0x1000 == 0 && (PageCount(s) > 0 ==> ExtentOf(s) in held)
  }

  lemma SegmentPage(s: Segment, x: nat)
    requires s.vaddress % 0x1000 == 0 && x < s.memorySize
    ensures PageCount(s) > 0 && (s.vaddress + x) / 0x1000 in Pages(ExtentOf(s))
  {
    assert (s.vaddress + x) / 0x1000 == s.vaddress / 0x1000 + x / 0x1000;
  }

  lemma SegmentSpan(s: Segment, w: nat)
    requires s.vaddress % 0x1000 == 0
    ensures s.vaddress <= w < s.vaddress + s.memorySize ==> w / 0x1000 in Pages(ExtentOf(s))
  {
    if s.vaddress <= w < s.vaddress + s.memorySize {
      SegmentPage(s, w - s.vaddress);
    }
  }

  ghost predicate HeldMapped(mem: Memory, pd: nat, top: nat, held: set<Extent>)
    requires pd < FRAMES
  {
    Apart(held) && forall q :: q in HeldPages(held) ==> MappedAt(mem, pd, top, q)
  }

  /** Held segments are mapped to dynamic pages. */
  lemma SegmentDynamic(mem: Memory, pd: nat, top: nat, held: set<Extent>, s: Segment, x: nat)
    requires pd < FRAMES && HeldMapped(mem, pd, top, held) && Placed(held, s) && x < s.memorySize
    ensures Dynamic(mem, pd, top, s.vaddress + x)
  {
    SegmentPage(s, x);
    assert (s.vaddress + x) / 0x1000 in HeldPages(held);
  }

  /** A byte of one held segment lies on no page of another. */
  lemma OutsideOther(held: set<Extent>, s: Segment, t: Segment, x: nat)
    requires Apart(held) && Placed(held, s) && Placed(held, t) && x < s.memorySize
    requires PageCount(t) > 0 ==> ExtentOf(s) != ExtentOf(t)
    ensures (s.vaddress + x) / 0x1000 !in Pages(ExtentOf(t))
    ensures !(t.vaddress <= s.vaddress + x < t.vaddress + t.memorySize)
  {
    SegmentPage(s, x);
    assert NoOverlap(held, ExtentOf(s), ExtentOf(t));
    assert (s.vaddress + x) / 0x1000 !in Pages(ExtentOf(t));
    SegmentSpan(t, s.vaddress + x);
  }

  lemma ByteSurvives(was: Memory, mem: Memory, pd: nat, top: nat, data: Physical, data': Physical, s: Segment,
                     t: Segment, x: nat)
    requires pd < FRAMES && x < s.memorySize && Dynamic(mem, pd, top, s.vaddress + x)
    requires (s.vaddress + x) / 0x1000 !in Pages(ExtentOf(t))
    requires !(t.vaddress <= s.vaddress + x < t.vaddress + t.memorySize)
    requires SegmentByte(data, was, pd, s, x) && SameOutside(was, mem, pd, t.vaddress / 0x1000, PageCount(t))
    requires Untouched(data, data', mem, pd, top, t.vaddress, t.vaddress + t.memorySize)
    ensures SegmentByte(data', mem, pd, s, x)
  {
    var w := s.vaddress + x;
    assert SamePage(was, mem, pd, w / 0x1000);
    assert UntouchedAt(data, data', mem, pd, top, t.vaddress, t.vaddress + t.memorySize, w, Expected(s, x));
  }

  /** Loading another segment leaves a loaded one alone. */
  lemma SegmentSurvives(mem: Memory, pd: nat, top: nat, held: set<Extent>, was: Memory, data: Physical, data': Physical,
                        s: Segment, t: Segment)
    requires pd < FRAMES && HeldMapped(mem, pd, top, held) && Placed(held, s) && Placed(held, t)
    requires PageCount(t) > 0 ==> ExtentOf(s) != ExtentOf(t)
    requires SegmentShown(data, was, pd, s) && SameOutside(was, mem, pd, t.vaddress / 0x1000, PageCount(t))
    requires Untouched(data, data', mem, pd, top, t.vaddress, t.vaddress + t.memorySize)
    ensures SegmentShown(data', mem, pd, s)
  {
    forall x: nat
      ensures SegmentByte(data', mem, pd, s, x)
    {
      if x < s.memorySize {
        SegmentDynamic(mem, pd, top, held, s, x);
        OutsideOther(held, s, t, x);
        assert SegmentByte(data, was, pd, s, x);
        ByteSurvives(was, mem, pd, top, data, data', s, t, x);
      }
    }
  }

  // ----- Which lists of segments load -----

  ghost predicate SegmentHeld(held: set<Extent>, segments: seq<Segment>, i: nat)
    requires i < |segments|
  {
    Wanted(segments[i]) && Placed(held, segments[i])
  }

  /** Segments with any other alignment are skipped. */
  predicate Wanted(s: Segment) {
    s.alignment == 0x1000
  }

  ghost predicate Acceptable(mem: Memory, pd: nat, s: Segment)
    requires pd < FRAMES
  {
    s.vaddress != 0 && s.vaddress % 0x1000 == 0 && Run(mem, pd, s.vaddress / 0x1000, PageCount(s))
  }

  ghost predicate Clear(segments: seq<Segment>, i: nat, j: nat)
    requires i < j < |segments|
  {
    Wanted(segments[i]) && Wanted(segments[j]) ==> Pages(ExtentOf(segments[i])) !! Pages(ExtentOf(segments[j]))
  }

  /** The first `k` segments ask for aligned, unmapped pages that do not overlap. */
  ghost predicate Loadable(mem: Memory, pd: nat, segments: seq<Segment>, k: nat)
    requires pd < FRAMES && k <= |segments|
  {
    && (forall i :: 0 <= i < k && Wanted(segments[i]) ==> Acceptable(mem, pd, segments[i]))
    && (forall i, j :: 0 <= i < j < k ==> Clear(segments, i, j))
  }

  function ExtentsOf(segments: seq<Segment>, k: nat): set<Extent>
    requires k <= |segments|
  {
    set i | 0 <= i < k && Wanted(segments[i]) && PageCount(segments[i]) > 0 :: ExtentOf(segments[i])
  }

  lemma NextExtent(segments: seq<Segment>, k: nat)
    requires k < |segments|
    ensures ExtentsOf(segments, k + 1)
            == ExtentsOf(segments, k)
               + (if Wanted(segments[k]) && PageCount(segments[k]) > 0 then {ExtentOf(segments[k])} else {})
  {
  }

  /**
   With the first `k` segments placed and the ranges `taken` mapped by others since,
   the next is accepted exactly when it was loadable from the start and keeps clear of
   those ranges.
   */
  lemma NextLoadable(mem0: Memory, mem: Memory, pd: nat, top: nat, segments: seq<Segment>, k: nat, taken: set<Extent>)
    requires pd < FRAMES && k < |segments| && Wanted(segments[k])
    requires segments[k].vaddress / 0x1000 + PageCount(segments[k]) <= WINDOW_PAGE
    requires Loadable(mem0, pd, segments, k)
    requires AddsOnly(mem0, mem, pd, HeldPages(ExtentsOf(segments, k) + taken))
    requires forall q :: q in HeldPages(ExtentsOf(segments, k) + taken) ==> MappedAt(mem, pd, top, q)
    ensures Acceptable(mem, pd, segments[k])
            <==> Loadable(mem0, pd, segments, k + 1) && Pages(ExtentOf(segments[k])) !! HeldPages(taken)
  {
    var s, all := segments[k], ExtentsOf(segments, k) + taken;
    PagesOfBoth(ExtentsOf(segments, k), taken);
    if Acceptable(mem, pd, s) {
      forall q | q in Pages(ExtentOf(s))
        ensures q !in HeldPages(all) && Unmapped(mem0, pd, q)
      {
        assert Unmapped(mem, pd, q);
        assert SamePage(mem0, mem, pd, q);
      }
      forall q: nat | s.vaddress / 0x1000 <= q < s.vaddress / 0x1000 + PageCount(s)
        ensures Unmapped(mem0, pd, q)
      {
        assert q in Pages(ExtentOf(s));
      }
      forall i | 0 <= i < k
        ensures Clear(segments, i, k)
      {
        ApartFromHeld(segments, i, k);
      }
    }
    if Loadable(mem0, pd, segments, k + 1) && Pages(ExtentOf(s)) !! HeldPages(taken) {
      forall q: nat | s.vaddress / 0x1000 <= q < s.vaddress / 0x1000 + PageCount(s)
        ensures Unmapped(mem, pd, q)
      {
        assert Unmapped(mem0, pd, q) && q in Pages(ExtentOf(s));
        HeldBySegment(segments, k, q);
        assert SamePage(mem0, mem, pd, q);
      }
    }
  }

  lemma PagesOfBoth(a: set<Extent>, b: set<Extent>)
    ensures HeldPages(a + b) == HeldPages(a) + HeldPages(b)
  {
  }

  lemma DifferentExtents(mem: Memory, pd: nat, segments: seq<Segment>, i: nat, k: nat)
    requires pd < FRAMES && i < k < |segments| && Wanted(segments[i]) && Wanted(segments[k])
    requires Loadable(mem, pd, segments, k + 1) && PageCount(segments[k]) > 0
    ensures ExtentOf(segments[i]) != ExtentOf(segments[k])
  {
    assert Clear(segments, i, k);
    assert ExtentOf(segments[k]).page in Pages(ExtentOf(segments[k]));
  }

  /** Some byte of the segment lies on page `q`. */
  ghost predicate LiesOn(s: Segment, q: nat) {
    exists x: nat :: ByteOn(s, x, q)
  }

  predicate ByteOn(s: Segment, x: nat, q: nat) {
    x < s.memorySize && (s.vaddress + x) / 0x1000 == q
  }

  /** An aligned segment asks for exactly the pages its bytes lie on. */
  lemma PagesAskedFor(s: Segment, q: nat)
    requires s.vaddress % 0x1000 == 0
    ensures q in Pages(ExtentOf(s)) <==> LiesOn(s, q)
  {
    var first := s.vaddress / 0x1000;
    if q in Pages(ExtentOf(s)) {
      var x := (q - first) * 0x1000;
      assert s.vaddress + x == q * 0x1000;
      assert ByteOn(s, x, q);
    }
    if LiesOn(s, q) {
      var x: nat :| ByteOn(s, x, q);
      assert s.vaddress + x == q * 0x1000 + (s.vaddress + x) % 0x1000;
    }
  }

  /** The bytes of the segment are at a non-null aligned address, on pages that are unmapped. */
  ghost predicate Welcome(mem: Memory, pd: nat, s: Segment)
    requires pd < FRAMES
  {
    s.vaddress != 0 && s.vaddress % 0x1000 == 0 && forall q: nat | q < FRAMES && LiesOn(s, q) :: Unmapped(mem, pd, q)
  }

  /** No page holds bytes of both. */
  ghost predicate Strangers(s: Segment, t: Segment) {
    forall q: nat :: !(LiesOn(s, q) && LiesOn(t, q))
  }

  /** Page by page: every wanted segment is welcome, and no two of them meet. */
  ghost predicate AllWelcome(mem: Memory, pd: nat, segments: seq<Segment>)
    requires pd < FRAMES
  {
    && (forall i :: 0 <= i < |segments| && Wanted(segments[i]) ==> Welcome(mem, pd, segments[i]))
    && (forall i, j :: 0 <= i < j < |segments| && Wanted(segments[i]) && Wanted(segments[j]) ==>
          Strangers(segments[i], segments[j]))
  }

  lemma AcceptableIsWelcome(mem: Memory, pd: nat, s: Segment)
    requires pd < FRAMES && s.vaddress / 0x1000 + PageCount(s) <= WINDOW_PAGE
    ensures Acceptable(mem, pd, s) <==> Welcome(mem, pd, s)
  {
    if s.vaddress % 0x1000 == 0 {
      forall q: nat
        ensures q in Pages(ExtentOf(s)) <==> LiesOn(s, q)
      {
        PagesAskedFor(s, q);
      }
      if Welcome(mem, pd, s) {
        forall q: nat | s.vaddress / 0x1000 <= q < s.vaddress / 0x1000 + PageCount(s)
          ensures Unmapped(mem, pd, q)
        {
          assert q in Pages(ExtentOf(s));
        }
      }
      if Acceptable(mem, pd, s) {
        forall q: nat | q < FRAMES && LiesOn(s, q)
          ensures Unmapped(mem, pd, q)
        {
          assert q in Pages(ExtentOf(s));
        }
      }
    }
  }

  lemma ClearIsStrangers(s: Segment, t: Segment)
    requires s.vaddress % 0x1000 == 0 && t.vaddress % 0x1000 == 0
    ensures Pages(ExtentOf(s)) !! Pages(ExtentOf(t)) <==> Strangers(s, t)
  {
    forall q: nat
      ensures q in Pages(ExtentOf(s)) <==> LiesOn(s, q)
      ensures q in Pages(ExtentOf(t)) <==> LiesOn(t, q)
    {
      PagesAskedFor(s, q);
      PagesAskedFor(t, q);
    }
    if Strangers(s, t) {
      forall q | q in Pages(ExtentOf(s))
        ensures q !in Pages(ExtentOf(t))
      {
      }
    }
  }

  /** What can be loaded, told without counting pages. */
  lemma LoadableIsWelcome(mem: Memory, pd: nat, segments: seq<Segment>)
    requires pd < FRAMES && forall s <- segments :: Wanted(s) ==> WellFormed(s)
    ensures Loadable(mem, pd, segments, |segments|) <==> AllWelcome(mem, pd, segments)
  {
    forall i | 0 <= i < |segments| && Wanted(segments[i])
      ensures Acceptable(mem, pd, segments[i]) <==> Welcome(mem, pd, segments[i])
    {
      AcceptableIsWelcome(mem, pd, segments[i]);
    }
    forall i, j | 0 <= i < j < |segments| && Wanted(segments[i]) && Wanted(segments[j])
                  && segments[i].vaddress % 0x1000 == 0 && segments[j].vaddress % 0x1000 == 0
      ensures Clear(segments, i, j) <==> Strangers(segments[i], segments[j])
    {
      ClearIsStrangers(segments[i], segments[j]);
    }
    if AllWelcome(mem, pd, segments) {
      forall i, j | 0 <= i < j < |segments|
        ensures Clear(segments, i, j)
      {
        assert Wanted(segments[i]) ==> Welcome(mem, pd, segments[i]);
        assert Wanted(segments[j]) ==> Welcome(mem, pd, segments[j]);
      }
    }
    if Loadable(mem, pd, segments, |segments|) {
      forall i, j | 0 <= i < j < |segments| && Wanted(segments[i]) && Wanted(segments[j])
        ensures Strangers(segments[i], segments[j])
      {
        assert Acceptable(mem, pd, segments[i]) && Acceptable(mem, pd, segments[j]);
        assert Clear(segments, i, j);
      }
    }
  }

  ghost predicate SegmentOn(segments: seq<Segment>, i: nat, q: nat) {
    i < |segments| && Wanted(segments[i]) && LiesOn(segments[i], q)
  }

  /** The pages held are exactly those that bytes of the segments lie on. */
  ghost predicate HoldsItsPages(segments: seq<Segment>) {
    forall q: nat :: q in HeldPages(ExtentsOf(segments, |segments|)) <==> exists i: nat :: SegmentOn(segments, i, q)
  }

  lemma PagesHeld(mem: Memory, pd: nat, segments: seq<Segment>)
    requires pd < FRAMES && Loadable(mem, pd, segments, |segments|)
    ensures HoldsItsPages(segments)
  {
    var all := ExtentsOf(segments, |segments|);
    forall q: nat
      ensures q in HeldPages(all) <==> exists i: nat :: SegmentOn(segments, i, q)
    {
      if q in HeldPages(all) {
        var e :| e in all && q in Pages(e);
        var i: nat :| i < |segments| && Wanted(segments[i]) && ExtentOf(segments[i]) == e;
        assert Acceptable(mem, pd, segments[i]);
        PagesAskedFor(segments[i], q);
        assert SegmentOn(segments, i, q);
      }
      if i: nat :| SegmentOn(segments, i, q) {
        assert Acceptable(mem, pd, segments[i]);
        PagesAskedFor(segments[i], q);
        assert ExtentOf(segments[i]) in all;
      }
    }
  }

  // ----- What was in memory before -----

  ghost predicate OldByte(data0: Physical, mem0: Memory, data: Physical, mem: Memory, pd: nat, top: nat, w: nat, v: nat)
    requires pd < FRAMES
  {
    Dynamic(mem0, pd, top, w) && Shown(data0, mem0, pd, w, v) ==> Shown(data, mem, pd, w, v)
  }

  /** Every byte of a page that was mapped before is still there. */
  ghost predicate KeepsOld(data0: Physical, mem0: Memory, data: Physical, mem: Memory, pd: nat, top: nat)
    requires pd < FRAMES
  {
    forall w: nat, v: nat :: OldByte(data0, mem0, data, mem, pd, top, w, v)
  }

  /** Filling a segment that was loadable touches nothing older. */
  lemma OldSurvives(data0: Physical, mem0: Memory, mem: Memory, pd: nat, top: nat, data: Physical, data': Physical,
                    s: Segment, pages: set<nat>)
    requires pd < FRAMES && Acceptable(mem0, pd, s) && AddsOnly(mem0, mem, pd, pages)
    requires Untouched(data, data', mem, pd, top, s.vaddress, s.vaddress + s.memorySize)
    requires KeepsOld(data0, mem0, data, mem0, pd, top)
    ensures KeepsOld(data0, mem0, data', mem0, pd, top)
  {
    forall w: nat, v: nat
      ensures OldByte(data0, mem0, data', mem0, pd, top, w, v)
    {
      if Dynamic(mem0, pd, top, w) && Shown(data0, mem0, pd, w, v) {
        assert OldByte(data0, mem0, data, mem0, pd, top, w, v);
        SegmentSpan(s, w);
        assert SamePage(mem0, mem, pd, w / 0x1000);
        assert UntouchedAt(data, data', mem, pd, top, s.vaddress, s.vaddress + s.memorySize, w, v);
      }
    }
  }

  /** Pages mapped before have not moved since. */
  lemma OldInPlace(data0: Physical, mem0: Memory, data: Physical, mem: Memory, pd: nat, top: nat, pages: set<nat>)
    requires pd < FRAMES && KeepsOld(data0, mem0, data, mem0, pd, top) && AddsOnly(mem0, mem, pd, pages)
    ensures KeepsOld(data0, mem0, data, mem, pd, top)
  {
    forall w: nat, v: nat
      ensures OldByte(data0, mem0, data, mem, pd, top, w, v)
    {
      if Dynamic(mem0, pd, top, w) {
        assert OldByte(data0, mem0, data, mem0, pd, top, w, v);
        assert SamePage(mem0, mem, pd, w / 0x1000);
      }
    }
  }

  lemma SegmentAllDynamic(mem: Memory, pd: nat, top: nat, segments: seq<Segment>, k: nat)
    requires pd < FRAMES && k < |segments| && Wanted(segments[k]) && segments[k].vaddress % 0x1000 == 0
    requires HeldMapped(mem, pd, top, ExtentsOf(segments, k + 1))
    ensures AllDynamic(mem, pd, top, segments[k].vaddress, segments[k].memorySize)
  {
    var s := segments[k];
    assert Placed(ExtentsOf(segments, k + 1), s);
    forall w: nat | s.vaddress <= w < s.vaddress + s.memorySize
      ensures Dynamic(mem, pd, top, w)
    {
      SegmentDynamic(mem, pd, top, ExtentsOf(segments, k + 1), s, w - s.vaddress);
    }
  }

  lemma OthersSurvive(mem0: Memory, mem: Memory, pd: nat, top: nat, was: Memory, data: Physical, data': Physical,
                      segments: seq<Segment>, k: nat)
    requires k < |segments| && Wanted(segments[k]) && segments[k].vaddress % 0x1000 == 0
    requires pd < FRAMES && HeldMapped(mem, pd, top, ExtentsOf(segments, k + 1)) && Loadable(mem0, pd, segments, k + 1)
    requires SameOutside(was, mem, pd, segments[k].vaddress / 0x1000, PageCount(segments[k]))
    requires Untouched(data, data', mem, pd, top, segments[k].vaddress, segments[k].vaddress + segments[k].memorySize)
    requires forall i :: 0 <= i < k && Wanted(segments[i]) ==> SegmentShown(data, was, pd, segments[i])
    ensures forall i :: 0 <= i < k && Wanted(segments[i]) ==> SegmentShown(data', mem, pd, segments[i])
  {
    forall i | 0 <= i < k && Wanted(segments[i])
      ensures SegmentShown(data', mem, pd, segments[i])
    {
      if PageCount(segments[k]) > 0 {
        DifferentExtents(mem0, pd, segments, i, k);
      }
      assert Placed(ExtentsOf(segments, k + 1), segments[i]) && Placed(ExtentsOf(segments, k + 1), segments[k]);
      SegmentSurvives(mem, pd, top, ExtentsOf(segments, k + 1), was, data, data', segments[i], segments[k]);
    }
  }

  lemma LoadablePrefix(mem: Memory, pd: nat, segments: seq<Segment>, k: nat)
    requires pd < FRAMES && k <= |segments|
    ensures Loadable(mem, pd, segments, |segments|) ==> Loadable(mem, pd, segments, k)
  {
  }

  lemma SkipSegment(mem: Memory, pd: nat, segments: seq<Segment>, k: nat)
    requires pd < FRAMES && k < |segments| && !Wanted(segments[k]) && Loadable(mem, pd, segments, k)
    ensures Loadable(mem, pd, segments, k + 1) && ExtentsOf(segments, k + 1) == ExtentsOf(segments, k)
  {
    NextExtent(segments, k);
  }

  lemma ApartFromHeld(segments: seq<Segment>, i: nat, k: nat)
    requires i < k < |segments|
    requires Pages(ExtentOf(segments[k])) !! HeldPages(ExtentsOf(segments, k))
    ensures Clear(segments, i, k)
  {
    var e := ExtentOf(segments[i]);
    if Wanted(segments[i]) && e.pages > 0 {
      assert e in ExtentsOf(segments, k);
      forall q | q in Pages(e)
        ensures q in HeldPages(ExtentsOf(segments, k))
      {
      }
    }
  }

  lemma HeldBySegment(segments: seq<Segment>, k: nat, q: nat)
    requires k < |segments| && Wanted(segments[k]) && q in Pages(ExtentOf(segments[k]))
    requires forall i, j :: 0 <= i < j < k + 1 ==> Clear(segments, i, j)
    ensures q !in HeldPages(ExtentsOf(segments, k))
  {
    forall e | e in ExtentsOf(segments, k)
      ensures q !in Pages(e)
    {
      var i :| 0 <= i < k && Wanted(segments[i]) && PageCount(segments[i]) > 0 && ExtentOf(segments[i]) == e;
      assert Clear(segments, i, k);
    }
  }

  /** Segments in memory stay so while their pages stay where they are. */
  lemma ShownStays(data: Physical, mem0: Memory, was: Memory, mem: Memory, pd: nat, top: nat, segments: seq<Segment>,
                   k: nat)
    requires pd < FRAMES && k <= |segments| && Loadable(mem0, pd, segments, k)
    requires HeldMapped(mem, pd, top, ExtentsOf(segments, k))
    requires SamePages(was, mem, pd, HeldPages(ExtentsOf(segments, k)))
    requires forall i :: 0 <= i < k && Wanted(segments[i]) ==> SegmentShown(data, was, pd, segments[i])
    ensures forall i :: 0 <= i < k && Wanted(segments[i]) ==> SegmentShown(data, mem, pd, segments[i])
  {
    forall i, x: nat | 0 <= i < k && Wanted(segments[i])
      ensures SegmentByte(data, mem, pd, segments[i], x)
    {
      assert SegmentByte(data, was, pd, segments[i], x) && Acceptable(mem0, pd, segments[i]);
      if x < segments[i].memorySize {
        SegmentPage(segments[i], x);
        assert ExtentOf(segments[i]) in ExtentsOf(segments, k);
        ByteStays(data, was, mem, pd, top, ExtentsOf(segments, k), segments[i], x);
      }
    }
  }

  lemma ByteStays(data: Physical, was: Memory, mem: Memory, pd: nat, top: nat, held: set<Extent>, s: Segment, x: nat)
    requires pd < FRAMES && HeldMapped(mem, pd, top, held) && SamePages(was, mem, pd, HeldPages(held))
    requires ExtentOf(s) in held && s.vaddress % 0x1000 == 0 && x < s.memorySize && SegmentByte(data, was, pd, s, x)
    ensures SegmentByte(data, mem, pd, s, x)
  {
    SegmentPage(s, x);
    PagesOfOne(held, ExtentOf(s));
    var q := (s.vaddress + x) / 0x1000;
    assert MappedAt(mem, pd, top, q) && SamePage(was, mem, pd, q);
  }

  // ----- Segments held -----

  /** A segment without memory. */
  predicate Empty(segments: seq<Segment>, i: nat)
    requires i < |segments|
  {
    segments[i].memorySize == 0
  }

  /** The segment at which unloading stops. */
  function FirstEmpty(segments: seq<Segment>, k: nat): (i: nat)
    requires k <= |segments|
    ensures k <= i <= |segments|
    decreases |segments| - k
  {
    if k < |segments| && !Empty(segments, k) then FirstEmpty(segments, k + 1) else k
  }

  lemma FirstEmptyIs(segments: seq<Segment>, k: nat, i: nat)
    requires k <= i < |segments|
    ensures i < FirstEmpty(segments, k) ==> !Empty(segments, i)
    ensures i == FirstEmpty(segments, k) ==> Empty(segments, i)
    decreases |segments| - k
  {
    if k < i && !Empty(segments, k) {
      FirstEmptyIs(segments, k + 1, i);
    }
  }

  lemma EmptySegment(segments: seq<Segment>)
    ensures FirstEmpty(segments, 0) < |segments| <==> exists i :: 0 <= i < |segments| && Empty(segments, i)
  {
    var first := FirstEmpty(segments, 0);
    if first < |segments| {
      FirstEmptyIs(segments, 0, first);
    }
    forall i | 0 <= i < first
      ensures !Empty(segments, i)
    {
      FirstEmptyIs(segments, 0, i);
    }
  }

  lemma StillPlaced(segments: seq<Segment>, held: set<Extent>, k: nat)
    requires k < |segments| && Wanted(segments[k]) && Placed(held, segments[k])
    requires forall i, j :: 0 <= i < j < |segments| ==> Clear(segments, i, j)
    ensures Placed(held - ExtentsOf(segments, k), segments[k])
    ensures segments[k].memorySize > 0 ==>
              held - ExtentsOf(segments, k) - {ExtentOf(segments[k])} == held - ExtentsOf(segments, k + 1)
  {
    NextExtent(segments, k);
    var e := ExtentOf(segments[k]);
    if e.pages > 0 && e in ExtentsOf(segments, k) {
      assert e.page in Pages(e);
      assert e.page in HeldPages(ExtentsOf(segments, k));
      HeldBySegment(segments, k, e.page);
      assert false;
    }
  }

  lemma ShownAfterStep(data: Physical, was: Memory, mem: Memory, pd: nat, top: nat, segments: seq<Segment>,
                       kept: set<Extent>, held: set<Extent>)
    requires pd < FRAMES && HeldMapped(mem, pd, top, kept) && SamePages(was, mem, pd, HeldPages(kept))
    requires ExtentsOf(segments, |segments|) <= kept
    requires forall i :: 0 <= i < |segments| ==> SegmentHeld(held, segments, i)
    requires forall i :: 0 <= i < |segments| && Wanted(segments[i]) ==> SegmentShown(data, was, pd, segments[i])
    ensures forall i :: 0 <= i < |segments| && Wanted(segments[i]) ==> SegmentShown(data, mem, pd, segments[i])
  {
    forall i, x: nat | 0 <= i < |segments| && Wanted(segments[i])
      ensures SegmentByte(data, mem, pd, segments[i], x)
    {
      assert SegmentHeld(held, segments, i) && SegmentByte(data, was, pd, segments[i], x);
      if x < segments[i].memorySize {
        SegmentPage(segments[i], x);
        assert ExtentOf(segments[i]) in ExtentsOf(segments, |segments|);
        ByteStays(data, was, mem, pd, top, kept, segments[i], x);
      }
    }
  }

  lemma StillHolding(segments: seq<Segment>, before: set<Extent>, held: set<Extent>)
    requires forall i :: 0 <= i < |segments| ==> SegmentHeld(before, segments, i)
    requires ExtentsOf(segments, |segments|) <= held
    ensures forall i :: 0 <= i < |segments| ==> SegmentHeld(held, segments, i)
  {
    forall i | 0 <= i < |segments|
      ensures SegmentHeld(held, segments, i)
    {
      assert SegmentHeld(before, segments, i);
      assert PageCount(segments[i]) > 0 ==> ExtentOf(segments[i]) in ExtentsOf(segments, |segments|);
    }
  }
}
