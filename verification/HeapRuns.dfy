/**
 The heap allocator as its clients see it. A run of malloc, free, realloc and
 stores through owned pointers behaves like a map from pointers to private
 buffers: buffers never overlap, keep what was stored, and survive every other
 operation. Allocating and freeing at once is the identity.
 */
module HeapRuns {
  import opened PageFrames
  import opened PageTables
  import opened Mmus
  import opened HeapModel
  import opened HeapLinks
  import opened HeapStates
  import opened Heaps

  /** The live pointers with the contents of their buffers. */
  type View = map<nat, seq<nat>>

  datatype Op =
    | Malloc(req: nat)
    | Free(p: nat)
    | Realloc(p: nat, size: nat)
    | Store(p: nat, offset: nat, value: nat)

  /** Buffer `p` holds `contents` in memory. */
  ghost predicate Holds(bytes: Bytes, p: nat, contents: seq<nat>) {
    forall j: nat :: HoldsByte(bytes, p, contents, j)
  }

  ghost predicate HoldsByte(bytes: Bytes, p: nat, contents: seq<nat>, j: nat) {
    j < |contents| ==> p + j in bytes && bytes[p + j] == contents[j]
  }

  ghost predicate Shows(bytes: Bytes, view: View, c: Cell) {
    && Payload(c) in view && |view[Payload(c)]| == c.req
    && Holds(bytes, Payload(c), view[Payload(c)])
  }

  ghost function Pointers(cells: set<Cell>): set<nat> {
    set c | c in cells :: Payload(c)
  }

  /** The view is exactly these allocations and their contents. */
  ghost predicate Mirrors(cells: set<Cell>, bytes: Bytes, view: View) {
    view.Keys == Pointers(cells) && forall c | c in cells :: Shows(bytes, view, c)
  }

  /** Requests whose size does not wrap. */
  predicate Fits(size: nat) {
    size + OVERHEAD + 48 < WORD
  }

  ghost predicate Agrees(h: Heap, view: View)
    reads h.Repr(), h.others
  {
    h.Valid() && Mirrors(Cells(h.blocks), h.bytes, view)
  }

  /** Different allocations have payloads that do not meet, nor meet any header. */
  lemma PayloadsDisjoint(blocks: seq<Block>, c: Cell, d: Cell)
    requires HeapOk(blocks) && c in Cells(blocks) && d in Cells(blocks) && c != d
    ensures Payload(c) != Payload(d)
    ensures Payload(c) + c.req <= d.addr || d.addr + 24 <= Payload(c)
    ensures Payload(c) + c.req <= Payload(d) || Payload(d) + d.req <= Payload(c)
  {
    var i, k :| 0 <= i < |blocks| && 0 <= k < |blocks[i].cells| && blocks[i].cells[k] == c;
    var j, l :| 0 <= j < |blocks| && 0 <= l < |blocks[j].cells| && blocks[j].cells[l] == d;
    CellsDisjoint(blocks, i, k, j, l);
    assert BlockAt(blocks, i) && BlockAt(blocks, j);
    PayloadInside(blocks[i], k);
    PayloadInside(blocks[j], l);
  }

  /** A payload keeps clear of every block header. */
  lemma PayloadOffBlockHeader(blocks: seq<Block>, c: Cell, j: nat)
    requires HeapOk(blocks) && c in Cells(blocks) && j < |blocks|
    ensures Payload(c) + c.req <= blocks[j].addr || blocks[j].addr + 24 <= Payload(c)
  {
    var i, k :| 0 <= i < |blocks| && 0 <= k < |blocks[i].cells| && blocks[i].cells[k] == c;
    assert BlockAt(blocks, i) && BlockAt(blocks, j) && BlocksApart(blocks, i, j);
    CellInside(blocks[i], k);
    PayloadInside(blocks[i], k);
  }

  /**
   What agreement gives a client: aligned, non-null pointers, buffers of the
   requested length with the stored contents, and no two buffers overlapping.
   */
  lemma ClientView(h: Heap, view: View, p: nat, q: nat)
    requires Agrees(h, view) && p in view && q in view
    ensures p != 0 && p % 16 == 0 && Holds(h.bytes, p, view[p])
    ensures p != q ==> p + |view[p]| <= q || q + |view[q]| <= p
  {
    var c :| c in Cells(h.blocks) && Payload(c) == p;
    var d :| d in Cells(h.blocks) && Payload(d) == q;
    if p != q {
      PayloadsDisjoint(h.blocks, c, d);
    }
  }

  /** Contents of an allocation whose bytes are kept. */
  lemma StillShows(bytes: Bytes, bytes': Bytes, blocks: seq<Block>, view: View, c: Cell)
    requires HeapOk(blocks) && c in Cells(blocks) && Shows(bytes, view, c) && Kept(bytes, bytes', c)
    ensures Shows(bytes', view, c)
  {
    var i, k :| 0 <= i < |blocks| && 0 <= k < |blocks[i].cells| && blocks[i].cells[k] == c;
    assert BlockAt(blocks, i);
    PayloadInside(blocks[i], k);
    var contents := view[Payload(c)];
    forall j: nat
      ensures HoldsByte(bytes', Payload(c), contents, j)
    {
      assert HoldsByte(bytes, Payload(c), contents, j);
    }
  }

  lemma MirrorsAdd(blocks: seq<Block>, bytes: Bytes, view: View, blocks': seq<Block>, bytes': Bytes, c: Cell,
                   contents: seq<nat>)
    requires HeapOk(blocks) && HeapOk(blocks') && Mirrors(Cells(blocks), bytes, view)
    requires c !in Cells(blocks) && Cells(blocks') == Cells(blocks) + {c}
    requires forall d | d in Cells(blocks) :: Kept(bytes, bytes', d)
    requires |contents| == c.req && Holds(bytes', Payload(c), contents)
    ensures Payload(c) !in view && Mirrors(Cells(blocks'), bytes', view[Payload(c) := contents])
  {
    var view' := view[Payload(c) := contents];
    forall d | d in Cells(blocks')
      ensures Shows(bytes', view', d)
    {
      if d != c {
        StillShows(bytes, bytes', blocks, view, d);
        PayloadsDisjoint(blocks', c, d);
      }
    }
    forall d | d in Cells(blocks)
      ensures Payload(d) != Payload(c)
    {
      PayloadsDisjoint(blocks', c, d);
    }
  }

  lemma MirrorsDrop(blocks: seq<Block>, bytes: Bytes, view: View, blocks': seq<Block>, bytes': Bytes, c: Cell)
    requires HeapOk(blocks) && Mirrors(Cells(blocks), bytes, view)
    requires c in Cells(blocks) && Cells(blocks') == Cells(blocks) - {c}
    requires forall d | d in Cells(blocks') :: Kept(bytes, bytes', d)
    ensures Mirrors(Cells(blocks'), bytes', view - {Payload(c)})
  {
    forall d | d in Cells(blocks')
      ensures Payload(d) != Payload(c) && Shows(bytes', view, d)
    {
      StillShows(bytes, bytes', blocks, view, d);
      PayloadsDisjoint(blocks, c, d);
    }
  }

  function Replaced(view: View, p: nat, q: nat, contents: seq<nat>): View {
    (view - {p})[q := contents]
  }

  lemma MirrorsReplace(blocks: seq<Block>, bytes: Bytes, view: View, blocks': seq<Block>, bytes': Bytes,
                       d: Cell, c: Cell, contents: seq<nat>)
    requires HeapOk(blocks) && HeapOk(blocks') && Mirrors(Cells(blocks), bytes, view)
    requires d in Cells(blocks) && Cells(blocks') == Cells(blocks) - {d} + {c}
    requires Payload(c) == Payload(d) || c !in Cells(blocks)
    requires forall e | e in Cells(blocks) && e != d :: Kept(bytes, bytes', e)
    requires |contents| == c.req && Holds(bytes', Payload(c), contents)
    ensures Mirrors(Cells(blocks'), bytes', Replaced(view, Payload(d), Payload(c), contents))
    ensures Payload(c) == Payload(d) || Payload(c) !in view
  {
    var view' := Replaced(view, Payload(d), Payload(c), contents);
    forall e | e in Cells(blocks')
      ensures Shows(bytes', view', e)
    {
      if e != c {
        StillShows(bytes, bytes', blocks, view, e);
        PayloadsDisjoint(blocks, d, e);
        PayloadsDisjoint(blocks', c, e);
      }
    }
    forall e | e in Cells(blocks) && e != d
      ensures Payload(e) in Pointers(Cells(blocks')) && Payload(e) != Payload(d)
      ensures Payload(e) == Payload(c) ==> e == c
    {
      assert e in Cells(blocks');
      PayloadsDisjoint(blocks, d, e);
      if e != c {
        PayloadsDisjoint(blocks', c, e);
      }
    }
  }

  /** The bytes of a buffer as they are now. */
  method Snapshot(h: Heap, p: nat, n: nat, ghost c: Cell) returns (contents: seq<nat>)
    requires h.Valid() && c in Cells(h.blocks) && p == Payload(c) && n == c.req
    ensures |contents| == n && Holds(h.bytes, p, contents)
  {
    ghost var i, k := h.PayloadFacts(c);
    contents := [];
    while |contents| < n
      invariant |contents| <= n
      invariant forall j: nat :: HoldsByte(h.bytes, p, contents, j)
    {
      ghost var shorter := contents;
      contents := contents + [h.bytes[p + |contents|]];
      forall j: nat
        ensures HoldsByte(h.bytes, p, contents, j)
      {
        assert HoldsByte(h.bytes, p, shorter, j);
      }
    }
  }

  /** Freeing pointer `p`, as the layout sees it. */
  ghost predicate Discards(pd: nat, l: Layout, p: nat, l': Layout)
    requires pd < FRAMES
  {
    exists d :: d in Cells(l.blocks) && Payload(d) == p && Heap.Withdraws(pd, l, d, l')
  }

  /** Changing the size at pointer `p`, as the layout sees it: in place, or by a move to `q`. */
  ghost predicate Relocates(pd: nat, l: Layout, p: nat, size: nat, q: nat, l': Layout)
    requires pd < FRAMES
  {
    exists d :: d in Cells(l.blocks) && Payload(d) == p && RelocatesCell(pd, l, d, size, q, l')
  }

  ghost predicate RelocatesCell(pd: nat, l: Layout, d: Cell, size: nat, q: nat, l': Layout)
    requires pd < FRAMES
  {
    if size <= d.req then Heap.Records(l, d, size, l') else Heap.MovesVia(pd, l, d, size, q, l')
  }

  /** Null and nothing else, or a buffer of its own. */
  ghost predicate Granted(view0: View, view: View, q: nat, req: nat) {
    if q == 0 then view == view0
    else q !in view0 && q in view && |view[q]| == req && view == view0[q := view[q]]
  }

  /** The counters of the heap since. */
  twostate predicate Tallied(h: Heap, warned: bool)
    reads h
  {
    h.Counts() == old(h.Counts()).(warnings := old(h.Counts()).warnings + if warned then 1 else 0)
  }

  method DoMalloc(h: Heap, req: nat, view0: View) returns (stop: bool, q: nat, view: View)
    requires Agrees(h, view0) && Fits(req)
    modifies h.Repr()
    ensures stop ==> h.NoFrameFor(old(h.blocks), req)
    ensures !stop ==> h.os.pd == old(h.os.pd) && h.os.top == old(h.os.top)
    ensures !stop ==> Agrees(h, view) && Granted(view0, view, q, req)
    ensures old(h.os.pd) < FRAMES
    ensures !stop ==> Tallied(h, q == 0)
    ensures !stop ==> Heap.Supplies(old(h.os.pd), old(h.Plot()), req, q, h.Plot())
    ensures !stop ==> (q != 0 <==> HadRoom(old(h.blocks), old(h.os.mem), old(h.os.pd), req + OVERHEAD))
  {
    ghost var was, bytes := h.blocks, h.bytes;
    var r;
    ghost var c;
    r, c := h.AllocateFresh(req);
    if r.Aborted? {
      return true, 0, view0;
    }
    stop, q := false, r.address;
    view := AdoptGrant(h, q, req, view0, was, bytes, c);
  }

  /** The view after `malloc`. */
  method AdoptGrant(h: Heap, q: nat, req: nat, view0: View, ghost was: seq<Block>, ghost bytes: Bytes, ghost c: Cell)
    returns (view: View)
    requires h.Valid() && HeapOk(was) && Mirrors(Cells(was), bytes, view0)
    requires q == 0 ==> h.blocks == was && h.bytes == bytes
    requires q != 0 ==>
               && q == Payload(c) && c.req == req && c !in Cells(was) && Cells(h.blocks) == Cells(was) + {c}
               && (forall e | e in Cells(was) :: Kept(bytes, h.bytes, e))
    ensures Agrees(h, view) && Granted(view0, view, q, req)
  {
    view := view0;
    if q != 0 {
      var contents := Snapshot(h, q, req, c);
      view := view0[q := contents];
      MirrorsAdd(was, bytes, view0, h.blocks, h.bytes, c, contents);
    }
  }

  lemma CellOfPointer(h: Heap, view: View, p: nat) returns (c: Cell)
    requires Agrees(h, view) && p in view
    ensures c in Cells(h.blocks) && Payload(c) == p && c.req == |view[p]| && p != 0 && h.OwnPointer(p)
    ensures h.minors[h.HeaderOf(p)].magic == MAGIC
  {
    c :| c in Cells(h.blocks) && Payload(c) == p;
    var i, k := h.FindCell(h.blocks, c);
    h.PayloadReadable(i, k);
  }

  method DoFree(h: Heap, p: nat, view0: View) returns (view: View)
    requires Agrees(h, view0) && p in view0
    modifies h.Repr()
    ensures h.os.pd == old(h.os.pd) && h.os.top == old(h.os.top) && Agrees(h, view) && view == view0 - {p}
    ensures Tallied(h, false)
    ensures h.os.pd < FRAMES && Discards(h.os.pd, old(h.Plot()), p, h.Plot())
  {
    ghost var c := CellOfPointer(h, view0, p);
    ghost var was, bytes := h.blocks, h.bytes;
    h.FreePayload(p, c);
    MirrorsDrop(was, bytes, view0, h.blocks, h.bytes, c);
    view := view0 - {p};
  }

  function Written(contents: seq<nat>, offset: nat, value: nat): (r: seq<nat>)
    requires offset < |contents|
    ensures |r| == |contents|
    ensures forall j | 0 <= j < |contents| :: r[j] == if j == offset then value else contents[j]
  {
    contents[..offset] + [value] + contents[offset + 1..]
  }

  method DoStore(h: Heap, p: nat, offset: nat, value: nat, view0: View) returns (view: View)
    requires Agrees(h, view0) && p in view0 && offset < |view0[p]|
    modifies h`bytes
    ensures Agrees(h, view) && view == view0[p := Written(view0[p], offset, value)]
  {
    ghost var c := CellOfPointer(h, view0, p);
    ghost var bytes := h.bytes;
    h.Store(p + offset, value, c);
    view := view0[p := Written(view0[p], offset, value)];
    forall j: nat
      ensures HoldsByte(h.bytes, p, view[p], j)
    {
      assert HoldsByte(bytes, p, view0[p], j);
    }
    assert Cells(h.blocks) == Cells(h.blocks) - {c} + {c};
    assert view == Replaced(view0, p, p, view[p]);
    MirrorsReplace(h.blocks, bytes, view0, h.blocks, h.bytes, c, c, view[p]);
  }

  /** The new pointer's buffer begins with as much of the old contents as both have room for. */
  ghost predicate Resized(view0: View, view: View, p: nat, q: nat, size: nat) {
    && p in view0 && q in view && |view[q]| == size && (q == p || q !in view0)
    && view == Replaced(view0, p, q, view[q])
    && forall j: nat | j < size && j < |view0[p]| :: view[q][j] == view0[p][j]
  }

  /** `realloc` of a held pointer. */
  method ReallocHeld(h: Heap, p: nat, size: nat, view0: View) returns (r: ReallocOutcome, ghost d: Cell, ghost c: Cell)
    requires Agrees(h, view0) && p in view0 && size > 0 && Fits(size)
    modifies h.Repr()
    ensures old(h.os.pd) < FRAMES && d in Cells(old(h.blocks)) && Payload(d) == p && d.req == |view0[p]|
    ensures r.Returned? ==> h.Valid() && h.os.pd == old(h.os.pd) && h.os.top == old(h.os.top)
    ensures r.Returned? ==>
              h.Resized(old(h.blocks), old(h.bytes), old(h.os.mem), old(h.os.pd), d, r.address, c, size)
    ensures size <= d.req ==> r == Returned(p)
    ensures r.Returned? ==> Tallied(h, r.address == 0)
    ensures r.Returned? ==> RelocatesCell(h.os.pd, old(h.Plot()), d, size, r.address, h.Plot())
    ensures r.Aborted? ==> size > d.req && h.NoFrameFor(old(h.blocks), size)
    ensures !r.Aborted? ==> (r.CopiesToNull? <==> CopyFails(old(h.blocks), old(h.os.mem), old(h.os.pd), d, size))
  {
    ghost var d0 := CellOfPointer(h, view0, p);
    ghost var was := h.blocks;
    r, d, c := h.Realloc(p, size);
    if d != d0 {
      PayloadsDisjoint(was, d, d0);
    }
  }

  /** An empty buffer that had to grow where there was no room. */
  ghost predicate Lost(view: View, blocks: seq<Block>, mem: Memory, pd: nat, p: nat, size: nat)
    requires pd < FRAMES && p in view
  {
    |view[p]| == 0 && !HadRoom(blocks, mem, pd, size + OVERHEAD)
  }

  lemma NoNullPayload(h: Heap, was: seq<Block>, bytes: Bytes, mem: Memory, pd: nat, d: Cell, c: Cell, size: nat)
    requires pd < FRAMES && h.Valid() && h.Resized(was, bytes, mem, pd, d, 0, c, size)
    ensures h.Dropped(was, bytes, d) && size > d.req && !HadRoom(was, mem, pd, size + OVERHEAD)
  {
  }

  /** `realloc` to size 0 frees. */
  method DoReallocToNothing(h: Heap, p: nat, view0: View) returns (view: View)
    requires Agrees(h, view0) && p in view0
    modifies h.Repr()
    ensures h.os.pd == old(h.os.pd) && h.os.top == old(h.os.top) && Agrees(h, view) && view == view0 - {p}
    ensures Tallied(h, false)
    ensures h.os.pd < FRAMES && Discards(h.os.pd, old(h.Plot()), p, h.Plot())
  {
    ghost var d0 := CellOfPointer(h, view0, p);
    ghost var was, bytes := h.blocks, h.bytes;
    var r;
    ghost var d, c;
    r, d, c := h.Realloc(p, 0);
    if d != d0 {
      PayloadsDisjoint(was, d, d0);
    }
    MirrorsDrop(was, bytes, view0, h.blocks, h.bytes, d);
    view := view0 - {p};
  }

  /** `realloc` of null allocates. */
  method DoReallocOfNull(h: Heap, size: nat, view0: View) returns (stop: bool, q: nat, view: View)
    requires Agrees(h, view0) && size > 0 && Fits(size)
    modifies h.Repr()
    ensures stop ==> h.NoFrameFor(old(h.blocks), size)
    ensures !stop ==>
              h.os.pd == old(h.os.pd) && h.os.top == old(h.os.top) && Agrees(h, view) && Granted(view0, view, q, size)
    ensures old(h.os.pd) < FRAMES
    ensures !stop ==> Tallied(h, q == 0)
    ensures !stop ==> Heap.Supplies(old(h.os.pd), old(h.Plot()), size, q, h.Plot())
    ensures !stop ==> (q != 0 <==> HadRoom(old(h.blocks), old(h.os.mem), old(h.os.pd), size + OVERHEAD))
  {
    ghost var was, bytes := h.blocks, h.bytes;
    var r;
    ghost var d, c;
    r, d, c := h.Realloc(0, size);
    if r.Aborted? {
      return true, 0, view0;
    }
    stop, q := false, r.address;
    view := AdoptGrant(h, q, size, view0, was, bytes, c);
  }

  /** The view after `realloc`. */
  method AdoptMoved(h: Heap, p: nat, q: nat, size: nat, view0: View,
                    ghost was: seq<Block>, ghost bytes: Bytes, ghost d: Cell, ghost c: Cell)
    returns (view: View)
    requires h.Valid() && HeapOk(was) && Mirrors(Cells(was), bytes, view0)
    requires d in Cells(was) && Payload(d) == p && h.Reallocated(was, bytes, d, q, c, size)
    ensures Agrees(h, view) && Resized(view0, view, p, q, size)
  {
    var contents := Snapshot(h, q, size, c);
    view := Replaced(view0, p, q, contents);
    ViewMoved(h, was, bytes, view0, h.blocks, h.bytes, d, c, contents);
  }

  lemma ViewMoved(h: Heap, was: seq<Block>, bytes: Bytes, view0: View, blocks: seq<Block>, bytes': Bytes,
                  d: Cell, c: Cell, contents: seq<nat>)
    requires HeapOk(was) && HeapOk(blocks) && Mirrors(Cells(was), bytes, view0)
    requires d in Cells(was) && Cells(blocks) == Cells(was) - {d} + {c}
    requires Payload(c) == Payload(d) || c !in Cells(was)
    requires forall e | e in Cells(was) && e != d :: Kept(bytes, bytes', e)
    requires |contents| == c.req && Holds(bytes', Payload(c), contents)
    requires h.SameBytes(bytes, Payload(d), bytes', Payload(c), if d.req < c.req then d.req else c.req)
    ensures Mirrors(Cells(blocks), bytes', Replaced(view0, Payload(d), Payload(c), contents))
    ensures Resized(view0, Replaced(view0, Payload(d), Payload(c), contents), Payload(d), Payload(c), c.req)
  {
    MirrorsReplace(was, bytes, view0, blocks, bytes', d, c, contents);
    assert Shows(bytes, view0, d);
    PrefixKept(h, bytes, Payload(d), view0[Payload(d)], bytes', Payload(c), contents);
  }

  lemma PrefixKept(h: Heap, bytes: Bytes, p: nat, before: seq<nat>, bytes': Bytes, q: nat, after: seq<nat>)
    requires Holds(bytes, p, before) && Holds(bytes', q, after)
    requires h.SameBytes(bytes, p, bytes', q, if |before| < |after| then |before| else |after|)
    ensures forall j: nat | j < |after| && j < |before| :: after[j] == before[j]
  {
    forall j: nat | j < |after| && j < |before|
      ensures after[j] == before[j]
    {
      assert h.SameByte(bytes, p, bytes', q, if |before| < |after| then |before| else |after|, j);
      assert HoldsByte(bytes, p, before, j) && HoldsByte(bytes', q, after, j);
    }
  }

  // ----- Whole runs -----

  /**
   A state of the run: the client's buffers, the blocks with the hint, the bytes they are
   in, the page tables, and the counters of warnings and errors.
   */
  datatype Scene = Scene(view: View, blocks: seq<Block>, hint: nat, bytes: Bytes, mem: Memory, counts: Counters)

  /** One warning more or not, and no error. */
  ghost predicate Warned(s: Scene, s': Scene, warned: bool) {
    s'.counts == s.counts.(warnings := s.counts.warnings + if warned then 1 else 0)
  }

  ghost function LayoutOf(s: Scene): Layout {
    Layout(s.blocks, s.hint, s.mem)
  }

  ghost function Now(h: Heap, view: View): Scene
    reads h, h.os
  {
    Scene(view, h.blocks, h.bestBet, h.bytes, h.os.mem, h.Counts())
  }

  /** The buffers are those of the allocations in the blocks. */
  ghost predicate Coherent(s: Scene) {
    HeapOk(s.blocks) && Mirrors(Cells(s.blocks), s.bytes, s.view)
  }

  /** A request is answered by null exactly when there is no room for it. */
  ghost predicate Answered(pd: nat, s: Scene, s': Scene, q: nat, req: nat)
    requires pd < FRAMES
  {
    && Granted(s.view, s'.view, q, req) && (q != 0 <==> HadRoom(s.blocks, s.mem, pd, req + OVERHEAD))
    && Heap.Supplies(pd, LayoutOf(s), req, q, LayoutOf(s')) && Warned(s, s', q == 0)
  }

  /** Freeing: the buffer is gone. Freeing null only counts a warning, and other pointers are not freed. */
  ghost predicate Freed(pd: nat, s: Scene, s': Scene, p: nat)
    requires pd < FRAMES
  {
    if p in s.view then
      s'.view == s.view - {p} && Discards(pd, LayoutOf(s), p, LayoutOf(s')) && Warned(s, s', false)
    else
      s' == s.(counts := s'.counts) && Warned(s, s', p == 0)
  }

  ghost predicate Moved(pd: nat, s: Scene, s': Scene, p: nat, q: nat, size: nat)
    requires pd < FRAMES
  {
    && Resized(s.view, s'.view, p, q, size) && (size <= |s.view[p]| ==> q == p)
    && Relocates(pd, LayoutOf(s), p, size, q, LayoutOf(s')) && Warned(s, s', false)
  }

  /** What one operation does to a client's private buffers, and where that puts them. */
  ghost predicate Next(pd: nat, op: Op, s: Scene, s': Scene)
    requires pd < FRAMES
  {
    exists q: nat :: NextWith(pd, op, s, s', q)
  }

  /** The same, with the answer `q` of `malloc` or `realloc`. */
  ghost predicate NextWith(pd: nat, op: Op, s: Scene, s': Scene, q: nat)
    requires pd < FRAMES
  {
    match op
    case Malloc(req) =>
      if Fits(req) then Answered(pd, s, s', q, req) else s' == s
    case Free(p) =>
      Freed(pd, s, s', p)
    case Realloc(p, size) =>
      if size == 0 then Freed(pd, s, s', p)
      else if !Fits(size) then s' == s
      else if p == 0 then Answered(pd, s, s', q, size)
      else if p !in s.view then s' == s
      else if Lost(s.view, s.blocks, s.mem, pd, p, size) then
        s'.view == s.view - {p} && Relocates(pd, LayoutOf(s), p, size, 0, LayoutOf(s')) && Warned(s, s', true)
      else Moved(pd, s, s', p, q, size)
    case Store(p, offset, value) =>
      && LayoutOf(s') == LayoutOf(s) && Warned(s, s', false)
      && if p in s.view && offset < |s.view[p]| then s'.view == s.view[p := Written(s.view[p], offset, value)]
         else s' == s
  }

  /** The size an operation asks the heap for. */
  function Asked(op: Op): nat {
    match op
    case Malloc(req) => req
    case Realloc(_, size) => size
    case _ => 0
  }

  /** The operation needs an allocation: `malloc`, and `realloc` of null or to a larger size. */
  predicate Allocates(op: Op, view: View) {
    || op.Malloc?
    || (op.Realloc? && op.size > 0 && (op.p == 0 || (op.p in view && op.size > |view[op.p]|)))
  }

  /**
   Why an operation stops the run: it needs an allocation that no gap can serve, and
   either no frame is left, or `realloc` would copy contents to address 0.
   */
  ghost predicate Stops(pd: nat, op: Op, s: Scene, free: set<nat>)
    requires pd < FRAMES
  {
    exists size: nat :: AsksInVain(pd, op, s, free, size)
  }

  ghost predicate AsksInVain(pd: nat, op: Op, s: Scene, free: set<nat>, size: nat)
    requires pd < FRAMES
  {
    && Allocates(op, s.view) && size == Asked(op) && NoRoomIn(s.blocks, |s.blocks|, size + OVERHEAD + 24)
    && (|| free == {}
        || (&& op.Realloc? && op.p in s.view && |s.view[op.p]| > 0
            && !HadRoom(s.blocks, s.mem, pd, size + OVERHEAD)))
  }

  /** A run of the map of private buffers. */
  ghost predicate IsRun(pd: nat, ops: seq<Op>, scenes: seq<Scene>)
    requires pd < FRAMES
  {
    && |scenes| == |ops| + 1
    && (forall k :: 0 <= k < |ops| ==> Next(pd, ops[k], scenes[k], scenes[k + 1]))
    && (forall k :: 0 <= k < |scenes| ==> Coherent(scenes[k]))
  }

  /**
   A whole run. Pointers the client does not hold and requests so large that their
   size wraps are not used. The run is one of a map of private buffers, to its end or
   to the operation that stops it.
   */
  method Execute(h: Heap, ops: seq<Op>, view0: View) returns (stop: bool, view: View, ghost scenes: seq<Scene>)
    requires Agrees(h, view0)
    modifies h.Repr()
    ensures old(h.os.pd) < FRAMES && 0 < |scenes| <= |ops| + 1 && IsRun(old(h.os.pd), ops[..|scenes| - 1], scenes)
    ensures scenes[0] == old(Now(h, view0))
    ensures stop ==>
              |scenes| <= |ops| && Stops(old(h.os.pd), ops[|scenes| - 1], scenes[|scenes| - 1], h.os.frames.Free())
    ensures !stop ==>
              && |scenes| == |ops| + 1 && h.os.pd == old(h.os.pd) && h.os.top == old(h.os.top)
              && Agrees(h, view) && scenes[|ops|] == Now(h, view)
  {
    stop, view, scenes := false, view0, [Now(h, view0)];
    ghost var pd := h.os.pd;
    for k := 0 to |ops|
      invariant h.os.pd == pd && h.os.top == old(h.os.top) && Agrees(h, view)
      invariant IsRun(pd, ops[..k], scenes) && scenes[0] == old(Now(h, view0)) && scenes[k] == Now(h, view)
    {
      ghost var earlier := scenes;
      stop, view := Step(h, ops[k], view);
      if stop {
        return;
      }
      scenes := earlier + [Now(h, view)];
      RunExtends(pd, ops, k, earlier, Now(h, view));
    }
    assert ops[..|ops|] == ops;
  }

  lemma RunExtends(pd: nat, ops: seq<Op>, k: nat, scenes: seq<Scene>, s: Scene)
    requires pd < FRAMES && k < |ops| && IsRun(pd, ops[..k], scenes) && Next(pd, ops[k], scenes[k], s) && Coherent(s)
    ensures IsRun(pd, ops[..k + 1], scenes + [s])
  {
    var longer := scenes + [s];
    forall i | 0 <= i < k + 1
      ensures Next(pd, ops[..k + 1][i], longer[i], longer[i + 1])
    {
      if i < k {
        assert ops[..k][i] == ops[i] && Next(pd, ops[..k][i], scenes[i], scenes[i + 1]);
      }
    }
  }

  method Step(h: Heap, op: Op, view0: View) returns (stop: bool, view: View)
    requires Agrees(h, view0)
    modifies h.Repr()
    ensures old(h.os.pd) < FRAMES
    ensures stop ==> Stops(old(h.os.pd), op, old(Now(h, view0)), h.os.frames.Free())
    ensures !stop ==>
              && h.os.pd == old(h.os.pd) && h.os.top == old(h.os.top) && Agrees(h, view)
              && Next(h.os.pd, op, old(Now(h, view0)), Now(h, view))
  {
    stop, view := false, view0;
    ghost var s := Now(h, view0);
    match op
    case Malloc(req) =>
      stop, view := StepMalloc(h, req, view);
    case Free(p) =>
      view := StepFree(h, p, view);
      assert NextWith(h.os.pd, op, s, Now(h, view), 0);
    case Realloc(p, size) =>
      stop, view := StepRealloc(h, p, size, view);
    case Store(p, offset, value) =>
      view := StepStore(h, p, offset, value, view);
  }

  method StepMalloc(h: Heap, req: nat, view0: View) returns (stop: bool, view: View)
    requires Agrees(h, view0)
    modifies h.Repr()
    ensures old(h.os.pd) < FRAMES
    ensures stop ==> Stops(old(h.os.pd), Malloc(req), old(Now(h, view0)), h.os.frames.Free())
    ensures !stop ==>
              && h.os.pd == old(h.os.pd) && h.os.top == old(h.os.top) && Agrees(h, view)
              && Next(h.os.pd, Malloc(req), old(Now(h, view0)), Now(h, view))
  {
    stop, view := false, view0;
    ghost var s := Now(h, view0);
    var q := 0;
    if Fits(req) {
      stop, q, view := DoMalloc(h, req, view);
      assert stop ==> AsksInVain(old(h.os.pd), Malloc(req), s, h.os.frames.Free(), req);
    }
    assert !stop ==> NextWith(h.os.pd, Malloc(req), s, Now(h, view), q);
  }

  method StepStore(h: Heap, p: nat, offset: nat, value: nat, view0: View) returns (view: View)
    requires Agrees(h, view0)
    modifies h`bytes
    ensures Agrees(h, view) && h.os.pd < FRAMES
    ensures Next(h.os.pd, Store(p, offset, value), old(Now(h, view0)), Now(h, view))
  {
    view := view0;
    ghost var s := Now(h, view0);
    if p in view && offset < |view[p]| {
      view := DoStore(h, p, offset, value, view);
    }
    assert NextWith(h.os.pd, Store(p, offset, value), s, Now(h, view), 0);
  }

  method StepFree(h: Heap, p: nat, view0: View) returns (view: View)
    requires Agrees(h, view0)
    modifies h.Repr()
    ensures h.os.pd == old(h.os.pd) && h.os.top == old(h.os.top) && Agrees(h, view)
    ensures h.os.pd < FRAMES && Freed(h.os.pd, old(Now(h, view0)), Now(h, view), p)
  {
    view := view0;
    if p == 0 {
      ghost var i, k := h.Free(0);
      NullNotHeld(h, view0);
    } else if p in view0 {
      view := DoFree(h, p, view0);
    }
  }

  lemma NullNotHeld(h: Heap, view: View)
    requires Agrees(h, view)
    ensures 0 !in view
  {
    if 0 in view {
      ClientView(h, view, 0, 0);
    }
  }

  method StepRealloc(h: Heap, p: nat, size: nat, view0: View) returns (stop: bool, view: View)
    requires Agrees(h, view0)
    modifies h.Repr()
    ensures old(h.os.pd) < FRAMES
    ensures stop ==> Stops(old(h.os.pd), Realloc(p, size), old(Now(h, view0)), h.os.frames.Free())
    ensures !stop ==>
              && h.os.pd == old(h.os.pd) && h.os.top == old(h.os.top) && Agrees(h, view)
              && Next(h.os.pd, Realloc(p, size), old(Now(h, view0)), Now(h, view))
  {
    stop, view := false, view0;
    ghost var s := Now(h, view0);
    var q := 0;
    if size == 0 {
      if p in view0 {
        view := DoReallocToNothing(h, p, view0);
      } else if p == 0 {
        view := StepFree(h, 0, view0);
      }
    } else if Fits(size) && p == 0 {
      stop, q, view := DoReallocOfNull(h, size, view0);
      assert stop ==> AsksInVain(old(h.os.pd), Realloc(p, size), s, h.os.frames.Free(), size);
    } else if Fits(size) && p in view0 {
      NullNotHeld(h, view0);
      stop, view := StepMove(h, p, size, view0);
      return;
    }
    assert !stop ==> NextWith(h.os.pd, Realloc(p, size), s, Now(h, view), q);
  }

  /** `realloc` of a held pointer, as a step of the run. */
  method StepMove(h: Heap, p: nat, size: nat, view0: View) returns (stop: bool, view: View)
    requires Agrees(h, view0) && p != 0 && p in view0 && size > 0 && Fits(size)
    modifies h.Repr()
    ensures old(h.os.pd) < FRAMES
    ensures stop ==> Stops(old(h.os.pd), Realloc(p, size), old(Now(h, view0)), h.os.frames.Free())
    ensures !stop ==>
              && h.os.pd == old(h.os.pd) && h.os.top == old(h.os.top) && Agrees(h, view)
              && Next(h.os.pd, Realloc(p, size), old(Now(h, view0)), Now(h, view))
  {
    ghost var s := Now(h, view0);
    ghost var was, bytes, mem, pd := h.blocks, h.bytes, h.os.mem, h.os.pd;
    var r;
    ghost var d, c;
    r, d, c := ReallocHeld(h, p, size, view0);
    if !r.Returned? {
      AsksForMove(pd, s, p, size, h.os.frames.Free());
      return true, view0;
    }
    stop := false;
    var q := r.address;
    if q == 0 {
      // Only an empty buffer is answered by null.
      NoNullPayload(h, was, bytes, mem, pd, d, c, size);
      MirrorsDrop(was, bytes, view0, h.blocks, h.bytes, d);
      view := view0 - {p};
    } else {
      view := AdoptMoved(h, p, q, size, view0, was, bytes, d, c);
    }
    NextMove(h.os.pd, s, Now(h, view), p, q, size);
  }

  lemma AsksForMove(pd: nat, s: Scene, p: nat, size: nat, free: set<nat>)
    requires pd < FRAMES && p in s.view && size > |s.view[p]|
    requires NoRoomIn(s.blocks, |s.blocks|, size + OVERHEAD + 24)
    requires free == {} || (|s.view[p]| > 0 && !HadRoom(s.blocks, s.mem, pd, size + OVERHEAD))
    ensures Stops(pd, Realloc(p, size), s, free)
  {
    assert AsksInVain(pd, Realloc(p, size), s, free, size);
  }

  lemma NextMove(pd: nat, s: Scene, s': Scene, p: nat, q: nat, size: nat)
    requires pd < FRAMES && p != 0 && p in s.view && size > 0 && Fits(size)
    requires if Lost(s.view, s.blocks, s.mem, pd, p, size) then
               s'.view == s.view - {p} && Relocates(pd, LayoutOf(s), p, size, 0, LayoutOf(s')) && Warned(s, s', true)
             else
               Moved(pd, s, s', p, q, size)
    ensures Next(pd, Realloc(p, size), s, s')
  {
    assert NextWith(pd, Realloc(p, size), s, s', q);
  }

  // ----- A round trip -----

  /** Memory after the stores that fall inside the buffer of `req` bytes at `p`. */
  ghost function AfterStores(bytes: Bytes, p: nat, req: nat, writes: seq<(nat, nat)>): Bytes {
    if writes == [] then bytes
    else
      var before, (offset, value) := AfterStores(bytes, p, req, writes[..|writes| - 1]), writes[|writes| - 1];
      if offset < req then before[p + offset := value] else before
  }

  /** Stores through a pointer, inside its buffer. */
  method StoreInto(h: Heap, p: nat, req: nat, writes: seq<(nat, nat)>, ghost c: Cell)
    requires h.Valid() && c in Cells(h.blocks) && p == Payload(c) && req == c.req
    modifies h`bytes
    ensures h.Valid() && h.bytes == AfterStores(old(h.bytes), p, req, writes)
  {
    for i := 0 to |writes|
      invariant h.Valid() && h.bytes == AfterStores(old(h.bytes), p, req, writes[..i])
    {
      assert writes[..i + 1][..i] == writes[..i];
      if writes[i].0 < req {
        h.Store(p + writes[i].0, writes[i].1, c);
      }
    }
    assert writes[..|writes|] == writes;
  }

  lemma FreedAgain(h: Heap, before: seq<Block>, taken: seq<Block>, i: nat, k: nat, req: nat)
    requires HeapOk(taken) && NoEmptyBlock(before) && h.Placed(before, taken, i, k, req)
    ensures h.WithoutCell(taken, i, k) == before
  {
    h.CellsAfterMalloc(before, taken, i, k, req);
    if i < |before| {
      assert before[i].cells != [];
      assert before == taken[i := RemoveCell(taken[i], k)];
    }
  }

  /**
   Allocating, storing through the pointer and freeing is the identity on the block
   list, all allocation lists and both running totals, whichever case served the
   request. `taken` is the heap in between, with the new allocation `k` of block `i`;
   `granted` and `stored` are the bytes before and after the stores.
   */
  method MallocThenFree(h: Heap, req: nat, writes: seq<(nat, nat)>)
    returns (r: Outcome, ghost taken: seq<Block>, ghost i: nat, ghost k: nat, ghost granted: Bytes, ghost stored: Bytes)
    requires h.Valid() && Fits(req)
    modifies h.Repr()
    ensures r.Panicked? ==> h.os.frames.Free() == {}
    ensures r.Done? ==>
              && h.Valid() && h.blocks == old(h.blocks)
              && h.memRoot == old(h.memRoot) && h.inuse == old(h.inuse) && h.reserved == old(h.reserved)
    ensures old(h.os.pd) < FRAMES
    ensures r.Done? ==> (r.address != 0 <==> HadRoom(old(h.blocks), old(h.os.mem), old(h.os.pd), req + OVERHEAD))
    ensures r.Done? && r.address != 0 ==>
              && h.Placed(old(h.blocks), taken, i, k, req) && r.address == Payload(taken[i].cells[k])
              && stored == AfterStores(granted, r.address, req, writes)
              && AllKept(old(h.bytes), granted, old(h.blocks)) && AllKept(stored, h.bytes, h.blocks)
  {
    ghost var before := h.blocks;
    AllFacets(h.Fields(), before);
    ghost var core, mem := h.Core(), h.os.mem;
    r, i, k := h.Malloc(req);
    h.AllFound(r, core, mem, before, i, k, req);
    taken, granted, stored := h.blocks, h.bytes, h.bytes;
    if r.Done? && r.address != 0 {
      h.CellsAfterMalloc(before, taken, i, k, req);
      StoreInto(h, r.address, req, writes, taken[i].cells[k]);
      stored := h.bytes;
      h.PayloadReadable(i, k);
      ghost var i', k' := h.Free(r.address);
      CellUnique(taken, i, k, i', k', taken[i].cells[k].addr);
      FreedAgain(h, before, taken, i, k, req);
      AllFacets(h.Fields(), before);
    }
  }
}
