/**
 The abstract heap: a list of page blocks ("majors"), each holding an
 address-ordered list of allocations ("minors"), and how the linked headers in
 memory represent it. Both header structures take 24 bytes.
 */
module HeapModel {

  const MAGIC: nat := 0xc001_c0de
  const DEAD: nat := 0xdead_dead
  /** Bytes added to a request so that it can be aligned: 16 of slack and 16 of alignment information. */
  const OVERHEAD: nat := 32
  /** Blocks end below the self-map window. */
  const LIMIT: nat := 0xFFC0_0000
  const WORD: nat := 0x1_0000_0000
  const MIN_PAGES: nat := 16

  /** One allocation: the address of its header, its gross size and the size asked for. */
  datatype Cell = Cell(addr: nat, size: nat, req: nat)

  /** One block of pages with its allocations in list order, and the frames its pages are on. */
  datatype Block = Block(addr: nat, pages: nat, cells: seq<Cell>, frames: seq<nat>)

  function CellEnd(c: Cell): nat {
    c.addr + 24 + c.size
  }

  function BlockSize(b: Block): nat {
    b.pages * 4096
  }

  function BlockEnd(b: Block): nat {
    b.addr + BlockSize(b)
  }

  /** Where the `k`-th gap starts: behind the block header or behind allocation `k - 1`. */
  function GapStart(b: Block, k: nat): nat
    requires k <= |b.cells|
  {
    if k == 0 then b.addr + 24 else CellEnd(b.cells[k - 1])
  }

  function GapEnd(b: Block, k: nat): nat
    requires k <= |b.cells|
  {
    if k == |b.cells| then BlockEnd(b) else b.cells[k].addr
  }

  function Gap(b: Block, k: nat): int
    requires k <= |b.cells|
  {
    GapEnd(b, k) - GapStart(b, k)
  }

  predicate GapOk(b: Block, k: nat) {
    k <= |b.cells| ==> Gap(b, k) >= 0
  }

  predicate CellOk(b: Block, k: nat) {
    k < |b.cells| ==> b.cells[k].req + OVERHEAD <= b.cells[k].size
  }

  /** Allocations sorted, disjoint and inside the block. */
  ghost predicate BlockOk(b: Block) {
    && b.addr > 0 && b.addr % 4096 == 0 && b.pages > 0 && BlockEnd(b) <= LIMIT
    && (forall k: nat :: GapOk(b, k))
    && (forall k: nat :: CellOk(b, k))
  }

  // ----- Order inside a block -----

  lemma {:induction false} CellsOrdered(b: Block, j: nat, k: nat)
    requires BlockOk(b) && j < k < |b.cells|
    ensures CellEnd(b.cells[j]) <= b.cells[k].addr
    decreases k - j
  {
    assert GapOk(b, j + 1);
    if j + 1 < k {
      CellsOrdered(b, j + 1, k);
    }
  }

  lemma CellInside(b: Block, k: nat)
    requires BlockOk(b) && k < |b.cells|
    ensures b.addr + 24 <= b.cells[k].addr && CellEnd(b.cells[k]) <= BlockEnd(b)
  {
    assert GapOk(b, 0) && GapOk(b, |b.cells|);
    if k > 0 {
      CellsOrdered(b, 0, k);
    }
    if k + 1 < |b.cells| {
      CellsOrdered(b, k, |b.cells| - 1);
    }
  }

  /** Every gap lies inside the block, before all later cells and behind all earlier ones. */
  lemma GapInside(b: Block, k: nat, j: nat)
    requires BlockOk(b) && k <= |b.cells|
    ensures b.addr + 24 <= GapStart(b, k) <= GapEnd(b, k) <= BlockEnd(b)
    ensures j < k ==> CellEnd(b.cells[j]) <= GapStart(b, k)
    ensures k <= j < |b.cells| ==> GapEnd(b, k) <= b.cells[j].addr
  {
    assert GapOk(b, k);
    if k > 0 {
      CellInside(b, k - 1);
    }
    if k < |b.cells| {
      CellInside(b, k);
    }
    if j + 1 < k {
      CellsOrdered(b, j, k - 1);
    }
    if k < j < |b.cells| {
      CellsOrdered(b, k, j);
    }
  }

  // ----- Bytes used -----

  function Spent(cells: seq<Cell>): nat {
    if cells == [] then 0 else Spent(cells[..|cells| - 1]) + cells[|cells| - 1].size + 24
  }

  /** What the block header's usage counter holds. */
  function Usage(b: Block): nat {
    24 + Spent(b.cells)
  }

  lemma {:induction false} SpentConcat(s: seq<Cell>, t: seq<Cell>)
    ensures Spent(s + t) == Spent(s) + Spent(t)
  {
    if t == [] {
      assert s + t == s;
    } else {
      var n := |t| - 1;
      assert (s + t)[..|s + t| - 1] == s + t[..n];
      SpentConcat(s, t[..n]);
    }
  }

  /** The gaps up to and including gap `k`. */
  function GapSum(b: Block, k: nat): int
    requires k <= |b.cells|
  {
    if k == 0 then Gap(b, 0) else GapSum(b, k - 1) + Gap(b, k)
  }

  lemma {:induction false} GapSumTelescopes(b: Block, k: nat)
    requires k <= |b.cells|
    ensures GapSum(b, k) == GapEnd(b, k) - (b.addr + 24) - Spent(b.cells[..k])
  {
    if k > 0 {
      GapSumTelescopes(b, k - 1);
      assert b.cells[..k][..k - 1] == b.cells[..k - 1];
    }
  }

  /** All gaps together are the block's size minus its usage. */
  lemma GapsAreWhatIsUnused(b: Block)
    ensures GapSum(b, |b.cells|) == BlockSize(b) - Usage(b)
  {
    GapSumTelescopes(b, |b.cells|);
    assert b.cells[..|b.cells|] == b.cells;
  }

  lemma {:induction false} GapAtMostSum(b: Block, j: nat, k: nat)
    requires BlockOk(b) && j <= k <= |b.cells|
    ensures Gap(b, j) <= GapSum(b, k) && 0 <= GapSum(b, k)
    decreases k
  {
    assert GapOk(b, k);
    if k > 0 {
      GapAtMostSum(b, if j < k then j else k - 1, k - 1);
    }
  }

  /** No gap is larger than size minus usage, and usage never exceeds size. */
  lemma GapAtMostUnused(b: Block, k: nat)
    requires BlockOk(b) && k <= |b.cells|
    ensures Gap(b, k) <= BlockSize(b) - Usage(b) && Usage(b) <= BlockSize(b)
  {
    GapsAreWhatIsUnused(b);
    GapAtMostSum(b, k, |b.cells|);
  }

  ghost predicate HasRoom(b: Block, need: nat) {
    exists k: nat :: k <= |b.cells| && Gap(b, k) >= need
  }

  /** The shortcut of the search: a block with too little unused memory has no gap for the request. */
  lemma SkipIsSound(b: Block, need: nat)
    requires BlockOk(b) && BlockSize(b) - Usage(b) < need
    ensures !HasRoom(b, need)
  {
    forall k: nat | k <= |b.cells|
      ensures Gap(b, k) < need
    {
      GapAtMostUnused(b, k);
    }
  }

  /** `k` is the first gap that can hold `need` bytes. */
  ghost predicate FirstFit(b: Block, need: nat, k: nat) {
    && k <= |b.cells| && Gap(b, k) >= need
    && forall j: nat | j < k :: Gap(b, j) < need
  }

  // ----- Insertion and removal -----

  function InsertCell(b: Block, k: nat, c: Cell): Block
    requires k <= |b.cells|
  {
    b.(cells := b.cells[..k] + [c] + b.cells[k..])
  }

  function RemoveCell(b: Block, k: nat): Block
    requires k < |b.cells|
  {
    b.(cells := b.cells[..k] + b.cells[k + 1..])
  }

  lemma InsertedIsOk(b: Block, k: nat, c: Cell)
    requires BlockOk(b) && k <= |b.cells|
    requires c.addr == GapStart(b, k) && c.size + 24 <= Gap(b, k) && c.req + OVERHEAD <= c.size
    ensures BlockOk(InsertCell(b, k, c))
    ensures Usage(InsertCell(b, k, c)) == Usage(b) + c.size + 24
  {
    var b' := InsertCell(b, k, c);
    forall j: nat
      ensures GapOk(b', j) && CellOk(b', j)
    {
      assert GapOk(b, j) && CellOk(b, j) && GapOk(b, k);
      assert j > 0 ==> GapOk(b, j - 1) && CellOk(b, j - 1);
    }
    assert b.cells == b.cells[..k] + b.cells[k..];
    SpentConcat(b.cells[..k], b.cells[k..]);
    SpentConcat(b.cells[..k] + [c], b.cells[k..]);
    SpentConcat(b.cells[..k], [c]);
  }

  lemma RemovedIsOk(b: Block, k: nat)
    requires BlockOk(b) && k < |b.cells|
    ensures BlockOk(RemoveCell(b, k))
    ensures Usage(RemoveCell(b, k)) == Usage(b) - b.cells[k].size - 24
  {
    var b' := RemoveCell(b, k);
    forall j: nat
      ensures GapOk(b', j) && CellOk(b', j)
    {
      assert GapOk(b, j) && CellOk(b, j) && GapOk(b, j + 1) && CellOk(b, j + 1);
    }
    assert b.cells == b.cells[..k] + ([b.cells[k]] + b.cells[k + 1..]);
    SpentConcat(b.cells[..k], [b.cells[k]] + b.cells[k + 1..]);
    SpentConcat([b.cells[k]], b.cells[k + 1..]);
    SpentConcat(b.cells[..k], b.cells[k + 1..]);
  }

  lemma RemoveUndoesInsert(b: Block, k: nat, c: Cell)
    requires k <= |b.cells|
    ensures RemoveCell(InsertCell(b, k, c), k) == b
  {
    var b' := InsertCell(b, k, c);
    assert b'.cells[..k] == b.cells[..k] && b'.cells[k + 1..] == b.cells[k..];
    assert b.cells == b.cells[..k] + b.cells[k..];
  }

  // ----- Alignment -----

  /** `ALIGN`: the first 16-aligned address that leaves 16 bytes in front of it. */
  function Align(start: nat): (p: nat)
    ensures p % 16 == 0 && start + 16 <= p < start + 32
  {
    var q := start + 16;
    if q % 16 == 0 then q else q + (16 - q % 16)
  }

  /** The address handed out for an allocation. */
  function Payload(c: Cell): nat {
    Align(c.addr + 24)
  }

  /** The payload fits its cell, with its alignment byte between the header and itself. */
  lemma PayloadInside(b: Block, k: nat)
    requires BlockOk(b) && k < |b.cells|
    ensures var c := b.cells[k];
            && Payload(c) % 16 == 0
            && c.addr + 24 <= Payload(c) - 16 < Payload(c)
            && Payload(c) + c.req < CellEnd(c)
  {
    assert CellOk(b, k);
  }

  // ----- Sizes in 32-bit arithmetic -----

  /** The gross size `malloc` computes for a request. */
  function GrossSize(req: nat): (size: nat)
    ensures req + 32 < WORD ==> size == req + 32
  {
    (req + OVERHEAD) % WORD
  }

  /**
   The number of pages a new block is given for a gross size: the least from 16 on that
   holds it with both headers, unless their sum wraps.
   */
  function PagesFor(size: nat): (n: nat)
    ensures n >= 16
    ensures size + 48 < WORD ==> size + 48 <= n * 4096 && (n > 16 ==> (n - 1) * 4096 < size + 48)
  {
    var st := (size + 48) % WORD;
    var n := if st % 4096 == 0 then st / 4096 else st / 4096 + 1;
    if n < MIN_PAGES then MIN_PAGES else n
  }

  /** The gross size leaves room for an aligned payload exactly when the addition does not wrap. */
  lemma GrossSizeSuffices(req: nat)
    requires req < WORD
    ensures (forall start: nat :: Align(start) + req <= start + GrossSize(req)) <==> req + OVERHEAD < WORD
  {
    if req + OVERHEAD >= WORD {
      assert Align(0) + req > 0 + GrossSize(req);
    }
  }

  /** A new block holds the request and both headers exactly when that sum does not wrap. */
  lemma PagesSuffice(size: nat)
    requires size < WORD
    ensures size + 48 <= PagesFor(size) * 4096 <==> size + 48 < WORD
  {
  }
}
