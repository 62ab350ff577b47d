/**
 How the doubly linked headers in memory represent the abstract heap, and how
 the pointer updates of insertion, removal, growing and shrinking change them.
 Pointers are addresses; 0 is null.
 */
module HeapLinks {
  import opened HeapModel

  datatype Major = Major(prev: nat, next: nat, pages: nat, size: nat, usage: nat, first: nat)
  datatype Minor = Minor(prev: nat, next: nat, block: nat, magic: nat, size: nat, req: nat)

  type Majors = map<nat, Major>
  type Minors = map<nat, Minor>

  // ----- The abstract heap as a whole -----

  ghost predicate BlocksApart(blocks: seq<Block>, i: nat, j: nat) {
    i < |blocks| && j < |blocks| && i != j ==>
      BlockEnd(blocks[i]) <= blocks[j].addr || BlockEnd(blocks[j]) <= blocks[i].addr
  }

  ghost predicate BlockAt(blocks: seq<Block>, i: nat) {
    i < |blocks| ==> BlockOk(blocks[i])
  }

  ghost predicate HeapOk(blocks: seq<Block>) {
    && (forall i: nat :: BlockAt(blocks, i))
    && (forall i: nat, j: nat :: BlocksApart(blocks, i, j))
  }

  /** No block is kept once its last allocation is gone. */
  ghost predicate NoEmptyBlock(blocks: seq<Block>) {
    forall i | 0 <= i < |blocks| :: blocks[i].cells != []
  }

  function InUse(blocks: seq<Block>): int {
    if blocks == [] then 0 else
    var b := blocks[|blocks| - 1];
    InUse(blocks[..|blocks| - 1]) + Spent(b.cells) - 24 * |b.cells|
  }

  function Reserved(blocks: seq<Block>): int {
    if blocks == [] then 0 else
    Reserved(blocks[..|blocks| - 1]) + BlockSize(blocks[|blocks| - 1])
  }

  lemma {:induction false} TotalsConcat(s: seq<Block>, t: seq<Block>)
    ensures InUse(s + t) == InUse(s) + InUse(t)
    ensures Reserved(s + t) == Reserved(s) + Reserved(t)
  {
    if t == [] {
      assert s + t == s;
    } else {
      assert (s + t)[..|s + t| - 1] == s + t[..|t| - 1];
      TotalsConcat(s, t[..|t| - 1]);
    }
  }

  lemma TotalsSplit(blocks: seq<Block>, i: nat)
    requires i < |blocks|
    ensures InUse(blocks) ==
            InUse(blocks[..i]) + InUse(blocks[i + 1..]) + Spent(blocks[i].cells) - 24 * |blocks[i].cells|
    ensures Reserved(blocks) == Reserved(blocks[..i]) + Reserved(blocks[i + 1..]) + BlockSize(blocks[i])
  {
    assert blocks == blocks[..i] + ([blocks[i]] + blocks[i + 1..]);
    TotalsConcat(blocks[..i], [blocks[i]] + blocks[i + 1..]);
    TotalsConcat([blocks[i]], blocks[i + 1..]);
    assert [blocks[i]][..0] == [];
  }

  lemma TotalsUpdate(blocks: seq<Block>, i: nat, b: Block)
    requires i < |blocks| && b.pages == blocks[i].pages
    ensures InUse(blocks[i := b])
            == InUse(blocks) - (Spent(blocks[i].cells) - 24 * |blocks[i].cells|) + Spent(b.cells) - 24 * |b.cells|
    ensures Reserved(blocks[i := b]) == Reserved(blocks)
  {
    TotalsSplit(blocks, i);
    TotalsSplit(blocks[i := b], i);
    assert blocks[i := b][..i] == blocks[..i] && blocks[i := b][i + 1..] == blocks[i + 1..];
  }

  lemma HeapOkUpdate(blocks: seq<Block>, i: nat, b: Block)
    requires HeapOk(blocks) && i < |blocks| && BlockOk(b) && b.addr == blocks[i].addr && b.pages == blocks[i].pages
    ensures HeapOk(blocks[i := b])
  {
    var blocks' := blocks[i := b];
    forall j: nat
      ensures BlockAt(blocks', j)
    {
      assert BlockAt(blocks, j);
    }
    forall j: nat, k: nat
      ensures BlocksApart(blocks', j, k)
    {
      assert BlocksApart(blocks, j, k);
    }
  }

  lemma HeapOkAppend(blocks: seq<Block>, b: Block)
    requires HeapOk(blocks) && BlockOk(b)
    requires forall i | 0 <= i < |blocks| :: BlockEnd(blocks[i]) <= b.addr || BlockEnd(b) <= blocks[i].addr
    ensures HeapOk(blocks + [b])
  {
    var blocks' := blocks + [b];
    forall j: nat
      ensures BlockAt(blocks', j)
    {
      assert BlockAt(blocks, j);
    }
    forall j: nat, k: nat
      ensures BlocksApart(blocks', j, k)
    {
      assert BlocksApart(blocks, j, k);
    }
  }

  lemma HeapOkRemove(blocks: seq<Block>, i: nat)
    requires HeapOk(blocks) && i < |blocks|
    ensures HeapOk(blocks[..i] + blocks[i + 1..])
  {
    var blocks' := blocks[..i] + blocks[i + 1..];
    forall j: nat
      ensures BlockAt(blocks', j)
    {
      assert BlockAt(blocks, j) && BlockAt(blocks, j + 1);
    }
    forall j: nat, k: nat
      ensures BlocksApart(blocks', j, k)
    {
      assert BlocksApart(blocks, if j < i then j else j + 1, if k < i then k else k + 1);
    }
  }

  // ----- Headers -----

  function AddrOf(blocks: seq<Block>, i: int): nat {
    if 0 <= i < |blocks| then blocks[i].addr else 0
  }

  function CellAddr(b: Block, k: int): nat {
    if 0 <= k < |b.cells| then b.cells[k].addr else 0
  }

  /** The header block `i` must have. */
  function MajorAt(blocks: seq<Block>, i: nat): Major
    requires i < |blocks|
  {
    var b := blocks[i];
    Major(AddrOf(blocks, i - 1), AddrOf(blocks, i + 1), b.pages, BlockSize(b), Usage(b), CellAddr(b, 0))
  }

  /** The header allocation `k` of block `b` must have. */
  function MinorAt(b: Block, k: nat): Minor
    requires k < |b.cells|
  {
    Minor(CellAddr(b, k - 1), CellAddr(b, k + 1), b.addr, MAGIC, b.cells[k].size, b.cells[k].req)
  }

  ghost predicate CellLinked(minors: Minors, b: Block, k: nat) {
    k < |b.cells| ==> b.cells[k].addr in minors && minors[b.cells[k].addr] == MinorAt(b, k)
  }

  ghost predicate CellsLinked(minors: Minors, b: Block) {
    forall k: nat :: CellLinked(minors, b, k)
  }

  ghost predicate MajorLinked(majors: Majors, blocks: seq<Block>, i: nat) {
    i < |blocks| ==> blocks[i].addr in majors && majors[blocks[i].addr] == MajorAt(blocks, i)
  }

  ghost predicate MinorsLinked(minors: Minors, blocks: seq<Block>, i: nat) {
    i < |blocks| ==> CellsLinked(minors, blocks[i])
  }

  /** All prev, next, first, block, size and usage fields agree with the abstract heap. */
  ghost predicate Linked(majors: Majors, minors: Minors, blocks: seq<Block>) {
    MajorsLinked(majors, blocks) && forall i: nat :: MinorsLinked(minors, blocks, i)
  }

  ghost predicate MajorsLinked(majors: Majors, blocks: seq<Block>) {
    forall i: nat :: MajorLinked(majors, blocks, i)
  }

  /** The two maps agree at every address outside `lo .. hi - 1`. */
  ghost predicate SameElsewhere(minors: Minors, minors': Minors, lo: nat, hi: nat) {
    forall a | a in minors && !(lo <= a < hi) :: a in minors' && minors'[a] == minors[a]
  }

  /** Blocks outside the changed range keep their allocation lists. */
  lemma OtherBlocksKeepCells(minors: Minors, minors': Minors, blocks: seq<Block>, i: nat, j: nat)
    requires HeapOk(blocks) && i < |blocks| && j != i
    requires MinorsLinked(minors, blocks, j)
    requires SameElsewhere(minors, minors', blocks[i].addr, BlockEnd(blocks[i]))
    ensures MinorsLinked(minors', blocks, j)
  {
    if j < |blocks| {
      assert BlockAt(blocks, j) && BlocksApart(blocks, i, j);
      forall k: nat
        ensures CellLinked(minors', blocks[j], k)
      {
        assert CellLinked(minors, blocks[j], k);
        if k < |blocks[j].cells| {
          CellInside(blocks[j], k);
        }
      }
    }
  }

  // ----- Inserting an allocation -----

  /**
   The header memory after allocation `c` takes gap `k`: it claims its bytes, so
   any stale header there is gone, and its neighbours point to it.
   */
  ghost function Inserted(minors: Minors, b: Block, k: nat, c: Cell): Minors
    requires k <= |b.cells| && CellsLinked(minors, b)
  {
    var m0 := Claimed(minors, c);
    var m1 := if k == 0 then m0 else
                assert CellLinked(minors, b, k - 1);
                m0[b.cells[k - 1].addr := minors[b.cells[k - 1].addr].(next := c.addr)];
    var m2 := if k == |b.cells| then m1 else
                assert CellLinked(minors, b, k);
                m1[b.cells[k].addr := minors[b.cells[k].addr].(prev := c.addr)];
    m2[c.addr := MinorAt(InsertCell(b, k, c), k)]
  }

  /** Header memory without the headers that overlap `c`. */
  function Claimed(minors: Minors, c: Cell): Minors {
    map a | a in minors && (a + 24 <= c.addr || CellEnd(c) <= a) :: minors[a]
  }

  lemma InsertedCells(minors: Minors, b: Block, k: nat, c: Cell)
    requires BlockOk(b) && CellsLinked(minors, b)
    requires k <= |b.cells| && c.addr == GapStart(b, k) && CellEnd(c) <= GapEnd(b, k)
    ensures CellsLinked(Inserted(minors, b, k, c), InsertCell(b, k, c))
  {
    var b', minors' := InsertCell(b, k, c), Inserted(minors, b, k, c);
    forall j: nat
      ensures CellLinked(minors', b', j)
    {
      if j < |b'.cells| && j != k {
        InsertedOther(minors, b, k, c, if j < k then j else j - 1);
      }
    }
  }

  lemma InsertedOther(minors: Minors, b: Block, k: nat, c: Cell, j: nat)
    requires BlockOk(b) && CellsLinked(minors, b)
    requires k <= |b.cells| && c.addr == GapStart(b, k) && CellEnd(c) <= GapEnd(b, k) && j < |b.cells|
    ensures CellLinked(Inserted(minors, b, k, c), InsertCell(b, k, c), if j < k then j else j + 1)
  {
    assert CellLinked(minors, b, j);
    GapInside(b, k, j);
    if k > 0 && j != k - 1 {
      CellsDiffer(b, j, k - 1);
    }
    if k < |b.cells| && j != k {
      CellsDiffer(b, j, k);
    }
  }

  lemma CellsDiffer(b: Block, j: nat, k: nat)
    requires BlockOk(b) && j < |b.cells| && k < |b.cells| && j != k
    ensures CellEnd(b.cells[j]) <= b.cells[k].addr || CellEnd(b.cells[k]) <= b.cells[j].addr
  {
    if j < k {
      CellsOrdered(b, j, k);
    } else {
      CellsOrdered(b, k, j);
    }
  }

  lemma InsertedElsewhere(minors: Minors, b: Block, k: nat, c: Cell)
    requires BlockOk(b) && CellsLinked(minors, b)
    requires k <= |b.cells| && c.addr == GapStart(b, k) && CellEnd(c) <= GapEnd(b, k)
    ensures SameElsewhere(minors, Inserted(minors, b, k, c), b.addr, BlockEnd(b))
  {
    GapInside(b, k, 0);
    if k > 0 {
      CellInside(b, k - 1);
    }
    if k < |b.cells| {
      CellInside(b, k);
    }
  }

  // ----- Removing an allocation -----

  /** The header memory after allocation `k` of `b` is unlinked and marked dead. */
  ghost function Removed(minors: Minors, b: Block, k: nat): Minors
    requires k < |b.cells| && CellsLinked(minors, b)
  {
    assert CellLinked(minors, b, k);
    var a := b.cells[k].addr;
    var m0 := minors[a := minors[a].(magic := DEAD)];
    var m1 := if k + 1 == |b.cells| then m0 else
                assert CellLinked(minors, b, k + 1);
                m0[b.cells[k + 1].addr := minors[b.cells[k + 1].addr].(prev := CellAddr(b, k - 1))];
    if k == 0 then m1 else
      assert CellLinked(minors, b, k - 1);
      m1[b.cells[k - 1].addr := minors[b.cells[k - 1].addr].(next := CellAddr(b, k + 1))]
  }

  lemma RemovedCells(minors: Minors, b: Block, k: nat)
    requires BlockOk(b) && CellsLinked(minors, b) && k < |b.cells|
    ensures CellsLinked(Removed(minors, b, k), RemoveCell(b, k))
    ensures SameElsewhere(minors, Removed(minors, b, k), b.addr, BlockEnd(b))
    ensures b.cells[k].addr in Removed(minors, b, k) && Removed(minors, b, k)[b.cells[k].addr].magic == DEAD
  {
    var b', minors' := RemoveCell(b, k), Removed(minors, b, k);
    CellInside(b, k);
    if k > 0 {
      CellInside(b, k - 1);
      CellsDiffer(b, k - 1, k);
    }
    if k + 1 < |b.cells| {
      CellInside(b, k + 1);
      CellsDiffer(b, k + 1, k);
    }
    forall j: nat
      ensures CellLinked(minors', b', j)
    {
      if j < |b'.cells| {
        RemovedOther(minors, b, k, if j < k then j else j + 1);
      }
    }
  }

  lemma RemovedOther(minors: Minors, b: Block, k: nat, j: nat)
    requires BlockOk(b) && CellsLinked(minors, b) && k < |b.cells| && j < |b.cells| && j != k
    ensures CellLinked(Removed(minors, b, k), RemoveCell(b, k), if j < k then j else j - 1)
  {
    var b', j' := RemoveCell(b, k), if j < k then j else j - 1;
    assert CellLinked(minors, b, j) && CellLinked(minors, b, k);
    CellsDiffer(b, j, k);
    if k > 0 && j != k - 1 {
      CellsDiffer(b, j, k - 1);
    }
    if k + 1 < |b.cells| && j != k + 1 {
      CellsDiffer(b, j, k + 1);
    }
    assert b'.cells[j'] == b.cells[j];
    assert CellAddr(b', j' - 1) == if j == k + 1 then CellAddr(b, k - 1) else CellAddr(b, j - 1);
    assert CellAddr(b', j' + 1) == if j + 1 == k then CellAddr(b, k + 1) else CellAddr(b, j + 1);
  }

  // ----- Block headers -----

  lemma AddrsDiffer(blocks: seq<Block>, i: nat, j: nat)
    requires HeapOk(blocks) && i < |blocks| && j < |blocks| && i != j
    ensures blocks[i].addr != blocks[j].addr
  {
    assert BlockAt(blocks, i) && BlockAt(blocks, j) && BlocksApart(blocks, i, j);
  }

  /** Changing the cells of one block changes the usage and first fields of its header only. */
  lemma MajorsAfterUpdate(majors: Majors, blocks: seq<Block>, i: nat, b: Block)
    requires HeapOk(blocks) && i < |blocks| && b.addr == blocks[i].addr && b.pages == blocks[i].pages
    requires MajorsLinked(majors, blocks)
    ensures b.addr in majors
    ensures MajorsLinked(majors[b.addr := majors[b.addr].(usage := Usage(b), first := CellAddr(b, 0))], blocks[i := b])
  {
    assert MajorLinked(majors, blocks, i);
    var majors' := majors[b.addr := majors[b.addr].(usage := Usage(b), first := CellAddr(b, 0))];
    var blocks' := blocks[i := b];
    forall j: nat
      ensures MajorLinked(majors', blocks', j)
    {
      assert MajorLinked(majors, blocks, j);
      if j < |blocks| && j != i {
        AddrsDiffer(blocks, i, j);
      }
    }
  }

  /** A new block header hooked in behind the last one. */
  lemma MajorsAfterAppend(majors: Majors, blocks: seq<Block>, b: Block)
    requires HeapOk(blocks + [b])
    requires MajorsLinked(majors, blocks)
    ensures var header := Major(AddrOf(blocks, |blocks| - 1), 0, b.pages, BlockSize(b), Usage(b), CellAddr(b, 0));
            if blocks == [] then
              MajorsLinked(majors[b.addr := header], blocks + [b])
            else
              var last := blocks[|blocks| - 1].addr;
              && last in majors
              && MajorsLinked(majors[b.addr := header][last := majors[last].(next := b.addr)], blocks + [b])
  {
    var header := Major(AddrOf(blocks, |blocks| - 1), 0, b.pages, BlockSize(b), Usage(b), CellAddr(b, 0));
    var blocks', n := blocks + [b], |blocks|;
    if n > 0 {
      assert MajorLinked(majors, blocks, n - 1);
      AddrsDiffer(blocks', n - 1, n);
    }
    var majors' := if n == 0 then majors[b.addr := header] else
                     majors[b.addr := header][blocks[n - 1].addr := majors[blocks[n - 1].addr].(next := b.addr)];
    forall j: nat
      ensures MajorLinked(majors', blocks', j)
    {
      assert MajorLinked(majors, blocks, j);
      if j < n {
        AddrsDiffer(blocks', j, n);
        if j < n - 1 {
          AddrsDiffer(blocks', j, n - 1);
        }
      }
    }
  }

  /** The block headers after block `i` is unhooked. */
  ghost function Unhooked(majors: Majors, blocks: seq<Block>, i: nat): Majors
    requires i < |blocks| && MajorsLinked(majors, blocks)
  {
    var m0 := if i == 0 then majors else
                assert MajorLinked(majors, blocks, i - 1);
                majors[blocks[i - 1].addr := majors[blocks[i - 1].addr].(next := AddrOf(blocks, i + 1))];
    var m1 := if i + 1 == |blocks| then m0 else
                assert MajorLinked(majors, blocks, i + 1);
                m0[blocks[i + 1].addr := majors[blocks[i + 1].addr].(prev := AddrOf(blocks, i - 1))];
    m1 - {blocks[i].addr}
  }

  lemma MajorsAfterUnhook(majors: Majors, blocks: seq<Block>, i: nat)
    requires HeapOk(blocks) && i < |blocks| && MajorsLinked(majors, blocks)
    ensures MajorsLinked(Unhooked(majors, blocks, i), blocks[..i] + blocks[i + 1..])
  {
    var majors', blocks' := Unhooked(majors, blocks, i), blocks[..i] + blocks[i + 1..];
    forall j: nat
      ensures MajorLinked(majors', blocks', j)
    {
      if j < |blocks'| {
        UnhookedOther(majors, blocks, i, if j < i then j else j + 1);
      }
    }
  }

  lemma UnhookedOther(majors: Majors, blocks: seq<Block>, i: nat, j: nat)
    requires HeapOk(blocks) && i < |blocks| && j < |blocks| && j != i
    requires MajorsLinked(majors, blocks)
    ensures MajorLinked(Unhooked(majors, blocks, i), blocks[..i] + blocks[i + 1..], if j < i then j else j - 1)
  {
    assert MajorLinked(majors, blocks, j);
    AddrsDiffer(blocks, j, i);
    if i > 0 && j != i - 1 {
      AddrsDiffer(blocks, j, i - 1);
    }
    if i + 1 < |blocks| && j != i + 1 {
      AddrsDiffer(blocks, j, i + 1);
    }
  }

  // ----- Live and dead headers -----

  ghost predicate CellHere(blocks: seq<Block>, i: nat, k: nat, a: nat) {
    i < |blocks| && k < |blocks[i].cells| && blocks[i].cells[k].addr == a
  }

  ghost predicate Live(blocks: seq<Block>, a: nat) {
    exists i: nat, k: nat :: CellHere(blocks, i, k, a)
  }

  /** A header in memory belongs to an allocation, or is marked dead. */
  ghost predicate LiveOrDead(minors: Minors, blocks: seq<Block>, a: nat) {
    a in minors && minors[a].magic != DEAD ==> Live(blocks, a)
  }

  ghost predicate AllLiveOrDead(minors: Minors, blocks: seq<Block>) {
    forall a: nat :: LiveOrDead(minors, blocks, a)
  }

  /** Two allocations at one address are the same allocation. */
  lemma CellUnique(blocks: seq<Block>, i: nat, k: nat, i': nat, k': nat, a: nat)
    requires HeapOk(blocks) && CellHere(blocks, i, k, a) && CellHere(blocks, i', k', a)
    ensures i == i' && k == k'
  {
    assert BlockAt(blocks, i) && BlockAt(blocks, i');
    CellInside(blocks[i], k);
    CellInside(blocks[i'], k');
    assert BlocksApart(blocks, i, i');
    if i == i' && k != k' {
      CellsDiffer(blocks[i], k, k');
    }
  }

  lemma LiveAfterInsert(minors: Minors, blocks: seq<Block>, i: nat, k: nat, c: Cell)
    requires i < |blocks| && k <= |blocks[i].cells| && CellsLinked(minors, blocks[i])
    requires AllLiveOrDead(minors, blocks)
    ensures AllLiveOrDead(Inserted(minors, blocks[i], k, c), blocks[i := InsertCell(blocks[i], k, c)])
  {
    var minors', blocks' := Inserted(minors, blocks[i], k, c), blocks[i := InsertCell(blocks[i], k, c)];
    forall a: nat
      ensures LiveOrDead(minors', blocks', a)
    {
      assert LiveOrDead(minors, blocks, a);
      if a == c.addr {
        assert CellHere(blocks', i, k, a);
      } else if Live(blocks, a) {
        var i0: nat, k0: nat :| CellHere(blocks, i0, k0, a);
        assert CellHere(blocks', i0, if i0 == i && k0 >= k then k0 + 1 else k0, a);
      } else {
        assert k > 0 ==>
            CellLinked(minors, blocks[i], k - 1) && CellHere(blocks, i, k - 1, blocks[i].cells[k - 1].addr);
        assert k < |blocks[i].cells| ==> CellHere(blocks, i, k, blocks[i].cells[k].addr);
      }
    }
  }

  lemma LiveAfterRemove(minors: Minors, blocks: seq<Block>, i: nat, k: nat)
    requires HeapOk(blocks) && i < |blocks| && k < |blocks[i].cells| && CellsLinked(minors, blocks[i])
    requires AllLiveOrDead(minors, blocks)
    ensures AllLiveOrDead(Removed(minors, blocks[i], k), blocks[i := RemoveCell(blocks[i], k)])
  {
    var minors', blocks' := Removed(minors, blocks[i], k), blocks[i := RemoveCell(blocks[i], k)];
    assert BlockAt(blocks, i);
    RemovedCells(minors, blocks[i], k);
    forall a: nat
      ensures LiveOrDead(minors', blocks', a)
    {
      assert LiveOrDead(minors, blocks, a);
      if Live(blocks, a) {
        var i0: nat, k0: nat :| CellHere(blocks, i0, k0, a);
        if i0 != i || k0 != k {
          assert CellHere(blocks', i0, if i0 == i && k0 > k then k0 - 1 else k0, a);
        }
      } else {
        assert k > 0 ==> CellHere(blocks, i, k - 1, blocks[i].cells[k - 1].addr);
        assert k + 1 < |blocks[i].cells| ==> CellHere(blocks, i, k + 1, blocks[i].cells[k + 1].addr);
        assert CellHere(blocks, i, k, blocks[i].cells[k].addr);
      }
    }
  }
}
