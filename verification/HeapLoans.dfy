/**
 Allocations that will all be given back: whoever takes some and returns them, in any
 order, leaves the heap exactly as it was, and everyone else's memory alone meanwhile.
 */
module HeapLoans {
  import opened PageFrames
  import opened Mmus
  import opened PagingRuns
  import opened HeapModel
  import opened HeapLinks
  import opened HeapStates
  import opened Heaps
  import opened HeapResidue
  import H = HeapRuns
  import S = SharedMemory

  /** The allocations behind `pointers`. */
  ghost function Loans(blocks: seq<Block>, pointers: set<nat>): set<Cell> {
    set c | c in Cells(blocks) && Payload(c) in pointers
  }

  /** The heap is `blocks0` with the allocations behind `pointers` besides. */
  ghost predicate Lent(blocks: seq<Block>, bytes: Bytes, pointers: set<nat>, blocks0: seq<Block>, bytes0: Bytes) {
    && Residue(blocks, Loans(blocks, pointers)) == blocks0
    && Cells(blocks0) == Cells(blocks) - Loans(blocks, pointers)
    && pointers == H.Pointers(Loans(blocks, pointers))
    && (forall c | c in Cells(blocks0) :: Kept(bytes0, bytes, c))
  }

  lemma NothingLent(blocks: seq<Block>, bytes: Bytes)
    requires NoEmptyBlock(blocks)
    ensures Lent(blocks, bytes, {}, blocks, bytes)
  {
    assert Loans(blocks, {}) == {};
    ResidueNone(blocks);
  }

  /** When all is returned the heap is what it was. */
  lemma AllReturned(blocks: seq<Block>, bytes: Bytes, blocks0: seq<Block>, bytes0: Bytes)
    requires NoEmptyBlock(blocks) && Lent(blocks, bytes, {}, blocks0, bytes0)
    ensures blocks == blocks0
  {
    assert Loans(blocks, {}) == {};
    ResidueNone(blocks);
  }

  lemma KeptInTurn(bytes0: Bytes, bytes1: Bytes, bytes2: Bytes, c: Cell)
    requires Kept(bytes0, bytes1, c) && Kept(bytes1, bytes2, c)
    ensures Kept(bytes0, bytes2, c)
  {
  }

  lemma OneMoreLoan(before: seq<Block>, after: seq<Block>, c: Cell, pointers: set<nat>)
    requires HeapOk(after) && c !in Cells(before) && Cells(after) == Cells(before) + {c}
    requires pointers == H.Pointers(Loans(before, pointers))
    ensures Payload(c) !in pointers
    ensures Loans(after, pointers + {Payload(c)}) == Loans(before, pointers) + {c}
    ensures pointers + {Payload(c)} == H.Pointers(Loans(before, pointers) + {c})
  {
    forall d | d in Cells(before)
      ensures Payload(d) != Payload(c)
    {
      H.PayloadsDisjoint(after, c, d);
    }
  }

  lemma OneLoanLess(before: seq<Block>, after: seq<Block>, c: Cell, pointers: set<nat>)
    requires HeapOk(before) && c in Cells(before) && Cells(after) == Cells(before) - {c} && Payload(c) in pointers
    requires pointers == H.Pointers(Loans(before, pointers))
    ensures Loans(after, pointers - {Payload(c)}) == Loans(before, pointers) - {c}
    ensures pointers - {Payload(c)} == H.Pointers(Loans(before, pointers) - {c})
  {
    forall d | d in Cells(before) && d != c
      ensures Payload(d) != Payload(c)
    {
      H.PayloadsDisjoint(before, c, d);
    }
  }

  lemma LentMore(h: Heap, before: seq<Block>, bytes: Bytes, after: seq<Block>, bytes': Bytes, i: nat, k: nat, req: nat,
                 pointers: set<nat>, blocks0: seq<Block>, bytes0: Bytes)
    requires HeapOk(after) && h.Placed(before, after, i, k, req) && AllKept(bytes, bytes', before)
    requires Lent(before, bytes, pointers, blocks0, bytes0)
    ensures var p := Payload(after[i].cells[k]);
            p !in pointers && Lent(after, bytes', pointers + {p}, blocks0, bytes0)
  {
    var c, loans := after[i].cells[k], Loans(before, pointers);
    h.CellsAfterMalloc(before, after, i, k, req);
    ResidueAfterMalloc(h, before, after, i, k, req, loans);
    OneMoreLoan(before, after, c, pointers);
    forall d | d in Cells(blocks0)
      ensures Kept(bytes0, bytes', d)
    {
      KeptCell(bytes, bytes', before, d);
      KeptInTurn(bytes0, bytes, bytes', d);
    }
  }

  lemma LentLess(h: Heap, before: seq<Block>, bytes: Bytes, bytes': Bytes, i: nat, k: nat,
                 pointers: set<nat>, blocks0: seq<Block>, bytes0: Bytes)
    requires HeapOk(before) && i < |before| && k < |before[i].cells| && Payload(before[i].cells[k]) in pointers
    requires AllKept(bytes, bytes', h.WithoutCell(before, i, k)) && Lent(before, bytes, pointers, blocks0, bytes0)
    ensures Lent(h.WithoutCell(before, i, k), bytes', pointers - {Payload(before[i].cells[k])}, blocks0, bytes0)
  {
    var c, after, loans := before[i].cells[k], h.WithoutCell(before, i, k), Loans(before, pointers);
    h.CellsAfterFree(before, i, k);
    ResidueAfterFree(h, before, i, k, loans);
    OneLoanLess(before, after, c, pointers);
    forall d | d in Cells(blocks0)
      ensures Kept(bytes0, bytes', d)
    {
      KeptCell(bytes, bytes', after, d);
      KeptInTurn(bytes0, bytes, bytes', d);
    }
  }

  /** The state while `pointers` are out. */
  ghost predicate Lending(h: Heap, pointers: set<nat>, blocks0: seq<Block>, bytes0: Bytes)
    reads h.Repr(), h.others
  {
    h.Valid() && Lent(h.blocks, h.bytes, pointers, blocks0, bytes0)
  }

  /** Takes an allocation; null exactly when there is no room. */
  method Borrow(h: Heap, req: nat, ghost pointers: set<nat>, ghost blocks0: seq<Block>, ghost bytes0: Bytes)
    returns (r: Outcome, ghost i: nat, ghost k: nat)
    requires Lending(h, pointers, blocks0, bytes0) && H.Fits(req)
    modifies h.Repr(), h.others
    ensures r.Panicked? ==> h.os.frames.Free() == {}
    ensures h.others.around == old(h.others.around).(seen := old(h.os.mem)) && old(h.os.pd) < FRAMES
    ensures r.Done? ==>
              && h.os.pd == old(h.os.pd) && h.os.top == old(h.os.top)
              && Undisturbed(old(h.os.mem), h.os.mem, h.os.pd, h.others.around.held)
    ensures r.Done? ==> (r.address != 0 <==> HadRoom(old(h.blocks), old(h.os.mem), old(h.os.pd), req + OVERHEAD))
    ensures r == Done(0) ==>
              && Lending(h, pointers, blocks0, bytes0) && h.blocks == old(h.blocks)
              && !HadRoom(h.blocks, h.os.mem, h.os.pd, req + OVERHEAD)
    ensures r.Done? && r.address != 0 ==>
              && r.address !in pointers && Lending(h, pointers + {r.address}, blocks0, bytes0)
              && h.Placed(old(h.blocks), h.blocks, i, k, req)
              && (i == |old(h.blocks)| ==>
                    LowestRun(old(h.os.mem), h.os.pd, PagesFor(req + OVERHEAD), h.blocks[i].addr / 4096))
  {
    ghost var before, bytes := h.blocks, h.bytes;
    S.LookAround(h);
    ghost var core, mem := h.Core(), h.os.mem;
    r, i, k := h.Malloc(req);
    h.AllFound(r, core, mem, before, i, k, req);
    if r.Done? {
      assert h.Shares(h.blocks, Places);
      if r.address != 0 {
        LentMore(h, before, bytes, h.blocks, h.bytes, i, k, req, pointers, blocks0, bytes0);
      }
    }
  }

  /** Gives one back. */
  method Return(h: Heap, p: nat, ghost pointers: set<nat>, ghost blocks0: seq<Block>, ghost bytes0: Bytes)
    requires Lending(h, pointers, blocks0, bytes0) && p in pointers
    modifies h.Repr(), h.others
    ensures h.others.around == old(h.others.around).(seen := old(h.os.mem)) && old(h.os.pd) < FRAMES
    ensures h.os.pd == old(h.os.pd) && h.os.top == old(h.os.top)
    ensures Undisturbed(old(h.os.mem), h.os.mem, h.os.pd, h.others.around.held)
    ensures Lending(h, pointers - {p}, blocks0, bytes0)
  {
    ghost var before, bytes := h.blocks, h.bytes;
    ghost var c: Cell :| c in Loans(before, pointers) && Payload(c) == p;
    ghost var i, k := h.FindCell(before, c);
    h.PayloadReadable(i, k);
    S.LookAround(h);
    ghost var i', k' := h.Free(p);
    CellUnique(before, i, k, i', k', c.addr);
    LentLess(h, before, bytes, h.bytes, i, k, pointers, blocks0, bytes0);
    assert h.Shares(h.blocks, Places);
  }
}
