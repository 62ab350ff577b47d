/**
 The complete state of the heap allocator as a value, its invariant, and the
 proof that each of the four edits (taking a gap, freeing an allocation, adding
 a block, returning a block) keeps it.
 */
module HeapStates {
  import opened Options
  import opened PageFrames
  import opened PageTables
  import opened Mmus
  import opened PagingRuns
  import opened HeapModel
  import opened HeapLinks

  type Bytes = map<nat, nat>

  // ----- Memory other than headers -----

  ghost predicate Covered(bytes: Bytes, blocks: seq<Block>, i: nat) {
    i < |blocks| ==> forall x | blocks[i].addr <= x < BlockEnd(blocks[i]) :: x in bytes
  }

  /** The byte 16 in front of a payload tells how far the payload is from its header. */
  ghost predicate AlignByte(bytes: Bytes, blocks: seq<Block>, i: nat, k: nat) {
    i < |blocks| && k < |blocks[i].cells| ==>
      var c := blocks[i].cells[k];
      Payload(c) - 16 in bytes && bytes[Payload(c) - 16] == Payload(c) - (c.addr + 24)
  }

  ghost predicate BytesOk(bytes: Bytes, blocks: seq<Block>) {
    && (forall i: nat :: Covered(bytes, blocks, i))
    && (forall i: nat, k: nat :: AlignByte(bytes, blocks, i, k))
  }

  ghost predicate BetOk(bet: nat, blocks: seq<Block>) {
    bet == 0 || exists i: nat :: i < |blocks| && blocks[i].addr == bet
  }

  /** The fields of the allocator. */
  datatype State = State(
    majors: Majors, minors: Minors, bytes: Bytes,
    memRoot: nat, bestBet: nat, reserved: int, inuse: int)

  /** The sides of the invariant. */
  datatype Facet = Headers | Liveness | Contents | Totals

  /** One side of how the state represents the abstract heap `blocks`. */
  ghost predicate Represents(s: State, blocks: seq<Block>, facet: Facet) {
    match facet
    case Headers => Linked(s.majors, s.minors, blocks) && s.memRoot == AddrOf(blocks, 0) && BetOk(s.bestBet, blocks)
    case Liveness => AllLiveOrDead(s.minors, blocks)
    case Contents => BytesOk(s.bytes, blocks)
    case Totals => s.reserved == Reserved(blocks) && s.inuse == InUse(blocks)
  }

  /** The state represents the abstract heap `blocks`. Proofs look at the sides they need. */
  ghost predicate Inv(s: State, blocks: seq<Block>) {
    HeapOk(blocks) && forall facet: Facet :: Represents(s, blocks, facet)
  }

  lemma AllFacets(s: State, blocks: seq<Block>)
    requires Inv(s, blocks)
    ensures Linked(s.majors, s.minors, blocks) && s.memRoot == AddrOf(blocks, 0) && BetOk(s.bestBet, blocks)
    ensures AllLiveOrDead(s.minors, blocks) && BytesOk(s.bytes, blocks)
    ensures s.reserved == Reserved(blocks) && s.inuse == InUse(blocks)
  {
    assert Represents(s, blocks, Headers) && Represents(s, blocks, Liveness);
    assert Represents(s, blocks, Contents) && Represents(s, blocks, Totals);
  }

  /** Any block may be the hint. */
  lemma BetKeepsInv(s: State, blocks: seq<Block>, i: nat)
    requires Inv(s, blocks) && i < |blocks|
    ensures Inv(s.(bestBet := blocks[i].addr), blocks)
  {
    AllFacets(s, blocks);
  }

  // ----- Taking a gap -----

  ghost predicate Fits(blocks: seq<Block>, i: nat, k: nat, c: Cell) {
    && i < |blocks| && k <= |blocks[i].cells|
    && c.addr == GapStart(blocks[i], k) && CellEnd(c) <= GapEnd(blocks[i], k) && c.req + OVERHEAD <= c.size
  }

  function AlignValue(c: Cell): nat {
    Payload(c) - (c.addr + 24)
  }

  ghost function TakeGap(s: State, blocks: seq<Block>, i: nat, k: nat, c: Cell): State
    requires Inv(s, blocks) && Fits(blocks, i, k, c)
  {
    AllFacets(s, blocks);
    assert MajorLinked(s.majors, blocks, i) && MinorsLinked(s.minors, blocks, i);
    var b := InsertCell(blocks[i], k, c);
    s.(majors := s.majors[b.addr := s.majors[b.addr].(usage := Usage(b), first := CellAddr(b, 0))],
       minors := Inserted(s.minors, blocks[i], k, c),
       bytes := s.bytes[Payload(c) - 16 := AlignValue(c)],
       inuse := s.inuse + c.size)
  }

  /** The fields in terms of the old ones: two counters, one pointer and one byte. */
  lemma TakenFields(s: State, blocks: seq<Block>, i: nat, k: nat, c: Cell)
    requires Inv(s, blocks) && Fits(blocks, i, k, c)
    ensures blocks[i].addr in s.majors && CellsLinked(s.minors, blocks[i])
    ensures var a := blocks[i].addr;
            var first := CellAddr(InsertCell(blocks[i], k, c), 0);
            TakeGap(s, blocks, i, k, c)
            == s.(majors := s.majors[a := s.majors[a].(first := first, usage := s.majors[a].usage + c.size + 24)],
                  minors := Inserted(s.minors, blocks[i], k, c),
                  bytes := s.bytes[Payload(c) - 16 := Payload(c) - (c.addr + 24)],
                  inuse := s.inuse + c.size)
  {
    AllFacets(s, blocks);
    assert BlockAt(blocks, i) && MajorLinked(s.majors, blocks, i) && MinorsLinked(s.minors, blocks, i);
    InsertedIsOk(blocks[i], k, c);
  }

  lemma TakeGapKeepsInv(s: State, blocks: seq<Block>, i: nat, k: nat, c: Cell)
    requires Inv(s, blocks) && Fits(blocks, i, k, c)
    ensures Inv(TakeGap(s, blocks, i, k, c), blocks[i := InsertCell(blocks[i], k, c)])
  {
    AllFacets(s, blocks);
    var s', b := TakeGap(s, blocks, i, k, c), InsertCell(blocks[i], k, c);
    var blocks' := blocks[i := b];
    assert BlockAt(blocks, i) && MinorsLinked(s.minors, blocks, i);
    InsertedIsOk(blocks[i], k, c);
    HeapOkUpdate(blocks, i, b);
    MajorsAfterUpdate(s.majors, blocks, i, b);
    InsertedLinked(s.minors, blocks, i, k, c);
    LiveAfterInsert(s.minors, blocks, i, k, c);
    BytesAfterInsert(s.bytes, blocks, i, k, c);
    BetAfterUpdate(s.bestBet, blocks, i, b);
    TotalsUpdate(blocks, i, b);
  }

  lemma BetAfterUpdate(bet: nat, blocks: seq<Block>, i: nat, b: Block)
    requires BetOk(bet, blocks) && i < |blocks| && b.addr == blocks[i].addr
    ensures BetOk(bet, blocks[i := b])
  {
    if bet != 0 {
      var j: nat :| j < |blocks| && blocks[j].addr == bet;
      assert blocks[i := b][j].addr == bet;
    }
  }

  lemma InsertedLinked(minors: Minors, blocks: seq<Block>, i: nat, k: nat, c: Cell)
    requires HeapOk(blocks) && Fits(blocks, i, k, c) && forall j: nat :: MinorsLinked(minors, blocks, j)
    requires CellsLinked(minors, blocks[i])
    ensures var minors', blocks' := Inserted(minors, blocks[i], k, c), blocks[i := InsertCell(blocks[i], k, c)];
            forall j: nat :: MinorsLinked(minors', blocks', j)
  {
    var minors', blocks' := Inserted(minors, blocks[i], k, c), blocks[i := InsertCell(blocks[i], k, c)];
    assert BlockAt(blocks, i);
    InsertedCells(minors, blocks[i], k, c);
    InsertedElsewhere(minors, blocks[i], k, c);
    forall j: nat
      ensures MinorsLinked(minors', blocks', j)
    {
      if j != i {
        assert MinorsLinked(minors, blocks, j);
        OtherBlocksKeepCells(minors, minors', blocks, i, j);
        assert MinorsLinked(minors', blocks, j);
      }
    }
  }

  /** The bytes of different allocations do not meet. */
  lemma CellsDisjoint(blocks: seq<Block>, i: nat, k: nat, j: nat, l: nat)
    requires HeapOk(blocks) && i < |blocks| && k < |blocks[i].cells| && j < |blocks| && l < |blocks[j].cells|
    requires i != j || k != l
    ensures var c, d := blocks[i].cells[k], blocks[j].cells[l];
            CellEnd(c) <= d.addr || CellEnd(d) <= c.addr
  {
    assert BlockAt(blocks, i) && BlockAt(blocks, j) && BlocksApart(blocks, i, j);
    CellInside(blocks[i], k);
    CellInside(blocks[j], l);
    if i == j {
      CellsDiffer(blocks[i], k, l);
    }
  }

  lemma BytesAfterInsert(bytes: Bytes, blocks: seq<Block>, i: nat, k: nat, c: Cell)
    requires HeapOk(blocks) && BytesOk(bytes, blocks) && Fits(blocks, i, k, c)
    requires HeapOk(blocks[i := InsertCell(blocks[i], k, c)])
    ensures BytesOk(bytes[Payload(c) - 16 := AlignValue(c)], blocks[i := InsertCell(blocks[i], k, c)])
  {
    var bytes', blocks' := bytes[Payload(c) - 16 := AlignValue(c)], blocks[i := InsertCell(blocks[i], k, c)];
    forall j: nat
      ensures Covered(bytes', blocks', j)
    {
      assert Covered(bytes, blocks, j);
    }
    forall j: nat, l: nat
      ensures AlignByte(bytes', blocks', j, l)
    {
      if j < |blocks'| && l < |blocks'[j].cells| && (j != i || l != k) {
        assert AlignByte(bytes, blocks, j, if j == i && l > k then l - 1 else l);
        CellsDisjoint(blocks', i, k, j, l);
        assert BlockAt(blocks', j);
        PayloadInside(blocks'[j], l);
      }
    }
  }

  // ----- Freeing an allocation -----

  ghost function FreeCell(s: State, blocks: seq<Block>, i: nat, k: nat): State
    requires Inv(s, blocks) && i < |blocks| && k < |blocks[i].cells|
  {
    AllFacets(s, blocks);
    assert MajorLinked(s.majors, blocks, i) && MinorsLinked(s.minors, blocks, i);
    var b := RemoveCell(blocks[i], k);
    s.(majors := s.majors[b.addr := s.majors[b.addr].(usage := Usage(b), first := CellAddr(b, 0))],
       minors := Removed(s.minors, blocks[i], k),
       inuse := s.inuse - blocks[i].cells[k].size)
  }

  lemma FreeCellKeepsInv(s: State, blocks: seq<Block>, i: nat, k: nat)
    requires Inv(s, blocks) && i < |blocks| && k < |blocks[i].cells|
    ensures Inv(FreeCell(s, blocks, i, k), blocks[i := RemoveCell(blocks[i], k)])
  {
    AllFacets(s, blocks);
    var s', b := FreeCell(s, blocks, i, k), RemoveCell(blocks[i], k);
    assert BlockAt(blocks, i) && MinorsLinked(s.minors, blocks, i);
    RemovedIsOk(blocks[i], k);
    HeapOkUpdate(blocks, i, b);
    MajorsAfterUpdate(s.majors, blocks, i, b);
    RemovedLinked(s.minors, blocks, i, k);
    LiveAfterRemove(s.minors, blocks, i, k);
    BytesAfterRemove(s.bytes, blocks, i, k);
    BetAfterUpdate(s.bestBet, blocks, i, b);
    TotalsUpdate(blocks, i, b);
  }

  lemma RemovedLinked(minors: Minors, blocks: seq<Block>, i: nat, k: nat)
    requires HeapOk(blocks) && i < |blocks| && k < |blocks[i].cells| && forall j: nat :: MinorsLinked(minors, blocks, j)
    requires CellsLinked(minors, blocks[i])
    ensures var minors', blocks' := Removed(minors, blocks[i], k), blocks[i := RemoveCell(blocks[i], k)];
            forall j: nat :: MinorsLinked(minors', blocks', j)
  {
    var minors', blocks' := Removed(minors, blocks[i], k), blocks[i := RemoveCell(blocks[i], k)];
    assert BlockAt(blocks, i);
    RemovedCells(minors, blocks[i], k);
    forall j: nat
      ensures MinorsLinked(minors', blocks', j)
    {
      if j != i {
        assert MinorsLinked(minors, blocks, j);
        OtherBlocksKeepCells(minors, minors', blocks, i, j);
        assert MinorsLinked(minors', blocks, j);
      }
    }
  }

  lemma BytesAfterRemove(bytes: Bytes, blocks: seq<Block>, i: nat, k: nat)
    requires BytesOk(bytes, blocks) && i < |blocks| && k < |blocks[i].cells|
    ensures BytesOk(bytes, blocks[i := RemoveCell(blocks[i], k)])
  {
    var blocks' := blocks[i := RemoveCell(blocks[i], k)];
    forall j: nat
      ensures Covered(bytes, blocks', j)
    {
      assert Covered(bytes, blocks, j);
    }
    forall j: nat, l: nat
      ensures AlignByte(bytes, blocks', j, l)
    {
      assert AlignByte(bytes, blocks, j, if j == i && l >= k then l + 1 else l);
    }
  }

  // ----- Adding a block -----

  /** `b` is an empty block of fresh pages whose contents are `contents`. */
  ghost predicate Growable(blocks: seq<Block>, b: Block, contents: Bytes) {
    && BlockOk(b) && b.cells == []
    && (forall i | 0 <= i < |blocks| :: BlockEnd(blocks[i]) <= b.addr || BlockEnd(b) <= blocks[i].addr)
    && (forall x :: x in contents <==> b.addr <= x < BlockEnd(b))
  }

  ghost function Grow(s: State, blocks: seq<Block>, b: Block, contents: Bytes): State
    requires Inv(s, blocks) && Growable(blocks, b, contents)
  {
    AllFacets(s, blocks);
    var n := |blocks|;
    var header := Major(AddrOf(blocks, n - 1), 0, b.pages, BlockSize(b), 24, 0);
    var majors := if n == 0 then s.majors[b.addr := header] else
                    assert MajorLinked(s.majors, blocks, n - 1);
                    s.majors[b.addr := header][blocks[n - 1].addr := s.majors[blocks[n - 1].addr].(next := b.addr)];
    s.(majors := majors,
       bytes := s.bytes + contents,
       memRoot := if n == 0 then b.addr else s.memRoot,
       reserved := s.reserved + BlockSize(b))
  }

  lemma GrowKeepsInv(s: State, blocks: seq<Block>, b: Block, contents: Bytes)
    requires Inv(s, blocks) && Growable(blocks, b, contents)
    ensures Inv(Grow(s, blocks, b, contents), blocks + [b])
  {
    AllFacets(s, blocks);
    var s', blocks' := Grow(s, blocks, b, contents), blocks + [b];
    HeapOkAppend(blocks, b);
    MajorsAfterAppend(s.majors, blocks, b);
    forall j: nat
      ensures MinorsLinked(s.minors, blocks', j)
    {
      assert MinorsLinked(s.minors, blocks, j);
    }
    forall a: nat
      ensures LiveOrDead(s.minors, blocks', a)
    {
      assert LiveOrDead(s.minors, blocks, a);
      if Live(blocks, a) {
        var i: nat, k: nat :| CellHere(blocks, i, k, a);
        assert CellHere(blocks', i, k, a);
      }
    }
    BytesAfterGrow(s.bytes, blocks, b, contents);
    if s.bestBet != 0 {
      var j: nat :| j < |blocks| && blocks[j].addr == s.bestBet;
      assert blocks'[j].addr == s.bestBet;
    }
    TotalsConcat(blocks, [b]);
    assert [b][..0] == [];
  }

  lemma BytesAfterGrow(bytes: Bytes, blocks: seq<Block>, b: Block, contents: Bytes)
    requires HeapOk(blocks) && BytesOk(bytes, blocks) && Growable(blocks, b, contents)
    ensures BytesOk(bytes + contents, blocks + [b])
  {
    var bytes', blocks' := bytes + contents, blocks + [b];
    forall j: nat
      ensures Covered(bytes', blocks', j)
    {
      assert Covered(bytes, blocks, j);
    }
    forall j: nat, l: nat
      ensures AlignByte(bytes', blocks', j, l)
    {
      assert AlignByte(bytes, blocks, j, l);
      if j < |blocks| && l < |blocks[j].cells| {
        assert BlockAt(blocks, j);
        CellInside(blocks[j], l);
        PayloadInside(blocks[j], l);
      }
    }
  }

  // ----- Returning a block -----

  /** Memory without the bytes and headers of a returned block. */
  function Outside<V>(m: map<nat, V>, lo: nat, hi: nat): map<nat, V> {
    map a | a in m && !(lo <= a < hi) :: m[a]
  }

  ghost function Shrink(s: State, blocks: seq<Block>, i: nat): State
    requires Inv(s, blocks) && i < |blocks| && blocks[i].cells == []
  {
    AllFacets(s, blocks);
    var b := blocks[i];
    s.(majors := Unhooked(s.majors, blocks, i),
       minors := Outside(s.minors, b.addr, BlockEnd(b)),
       bytes := Outside(s.bytes, b.addr, BlockEnd(b)),
       memRoot := if s.memRoot == b.addr then AddrOf(blocks, i + 1) else s.memRoot,
       bestBet := if s.bestBet == b.addr then 0 else s.bestBet,
       reserved := s.reserved - BlockSize(b))
  }

  lemma ShrinkKeepsInv(s: State, blocks: seq<Block>, i: nat)
    requires Inv(s, blocks) && i < |blocks| && blocks[i].cells == []
    ensures Inv(Shrink(s, blocks, i), blocks[..i] + blocks[i + 1..])
  {
    AllFacets(s, blocks);
    var s', blocks', b := Shrink(s, blocks, i), blocks[..i] + blocks[i + 1..], blocks[i];
    HeapOkRemove(blocks, i);
    MajorsAfterUnhook(s.majors, blocks, i);
    forall j: nat
      ensures MinorsLinked(s'.minors, blocks', j)
    {
      var j0 := if j < i then j else j + 1;
      assert MinorsLinked(s.minors, blocks, j0);
      OtherBlocksKeepCells(s.minors, s'.minors, blocks, i, j0);
      assert MinorsLinked(s'.minors, blocks, j0);
    }
    LiveAfterShrink(s.minors, blocks, i);
    BytesAfterShrink(s.bytes, blocks, i);
    if i > 0 {
      AddrsDiffer(blocks, 0, i);
    }
    assert BlockAt(blocks, i);
    if s'.bestBet != 0 {
      var j: nat :| j < |blocks| && blocks[j].addr == s.bestBet;
      assert blocks'[if j < i then j else j - 1].addr == s.bestBet;
    }
    TotalsSplit(blocks, i);
    TotalsConcat(blocks[..i], blocks[i + 1..]);
  }

  lemma LiveAfterShrink(minors: Minors, blocks: seq<Block>, i: nat)
    requires HeapOk(blocks) && AllLiveOrDead(minors, blocks) && i < |blocks| && blocks[i].cells == []
    ensures AllLiveOrDead(Outside(minors, blocks[i].addr, BlockEnd(blocks[i])), blocks[..i] + blocks[i + 1..])
  {
    var minors', blocks' := Outside(minors, blocks[i].addr, BlockEnd(blocks[i])), blocks[..i] + blocks[i + 1..];
    forall a: nat
      ensures LiveOrDead(minors', blocks', a)
    {
      assert LiveOrDead(minors, blocks, a);
      if Live(blocks, a) {
        var j: nat, k: nat :| CellHere(blocks, j, k, a);
        assert CellHere(blocks', if j < i then j else j - 1, k, a);
      }
    }
  }

  lemma BytesAfterShrink(bytes: Bytes, blocks: seq<Block>, i: nat)
    requires HeapOk(blocks) && BytesOk(bytes, blocks) && i < |blocks|
    ensures BytesOk(Outside(bytes, blocks[i].addr, BlockEnd(blocks[i])), blocks[..i] + blocks[i + 1..])
  {
    var bytes', blocks' := Outside(bytes, blocks[i].addr, BlockEnd(blocks[i])), blocks[..i] + blocks[i + 1..];
    forall j: nat
      ensures Covered(bytes', blocks', j)
    {
      var j0 := if j < i then j else j + 1;
      assert Covered(bytes, blocks, j0) && BlocksApart(blocks, i, j0);
    }
    forall j: nat, l: nat
      ensures AlignByte(bytes', blocks', j, l)
    {
      var j0 := if j < i then j else j + 1;
      assert AlignByte(bytes, blocks, j0, l) && BlocksApart(blocks, i, j0) && BlockAt(blocks, j0);
      if j0 < |blocks| && l < |blocks[j0].cells| {
        CellInside(blocks[j0], l);
        PayloadInside(blocks[j0], l);
      }
    }
  }

  // ----- Contents -----

  /** The bytes of allocation `c` are the same in both memories. */
  ghost predicate Kept(bytes: Bytes, bytes': Bytes, c: Cell) {
    forall x | c.addr <= x < CellEnd(c) && x in bytes :: x in bytes' && bytes'[x] == bytes[x]
  }

  ghost predicate KeptAt(bytes: Bytes, bytes': Bytes, blocks: seq<Block>, i: nat, k: nat) {
    i < |blocks| && k < |blocks[i].cells| ==> Kept(bytes, bytes', blocks[i].cells[k])
  }

  /** The bytes of every allocation in `blocks` are the same in both memories. */
  ghost predicate AllKept(bytes: Bytes, bytes': Bytes, blocks: seq<Block>) {
    forall i: nat, k: nat :: KeptAt(bytes, bytes', blocks, i, k)
  }

  lemma TakeGapKeepsContents(s: State, blocks: seq<Block>, i: nat, k: nat, c: Cell)
    requires Inv(s, blocks) && Fits(blocks, i, k, c)
    ensures AllKept(s.bytes, TakeGap(s, blocks, i, k, c).bytes, blocks)
  {
    TakeGapKeepsInv(s, blocks, i, k, c);
    var blocks', bytes' := blocks[i := InsertCell(blocks[i], k, c)], TakeGap(s, blocks, i, k, c).bytes;
    forall j: nat, l: nat
      ensures KeptAt(s.bytes, bytes', blocks, j, l)
    {
      if j < |blocks| && l < |blocks[j].cells| {
        CellsDisjoint(blocks', i, k, j, if j == i && l >= k then l + 1 else l);
      }
    }
  }

  lemma GrowKeepsContents(s: State, blocks: seq<Block>, b: Block, contents: Bytes)
    requires Inv(s, blocks) && Growable(blocks, b, contents)
    ensures AllKept(s.bytes, Grow(s, blocks, b, contents).bytes, blocks)
  {
    var bytes' := Grow(s, blocks, b, contents).bytes;
    forall j: nat, l: nat
      ensures KeptAt(s.bytes, bytes', blocks, j, l)
    {
      if j < |blocks| && l < |blocks[j].cells| {
        assert BlockAt(blocks, j);
        CellInside(blocks[j], l);
      }
    }
  }

  lemma ShrinkKeepsContents(s: State, blocks: seq<Block>, i: nat)
    requires Inv(s, blocks) && i < |blocks| && blocks[i].cells == []
    ensures AllKept(s.bytes, Shrink(s, blocks, i).bytes, blocks)
  {
    var bytes' := Shrink(s, blocks, i).bytes;
    forall j: nat, l: nat
      ensures KeptAt(s.bytes, bytes', blocks, j, l)
    {
      if j < |blocks| && l < |blocks[j].cells| {
        assert BlockAt(blocks, j) && BlocksApart(blocks, i, j);
        CellInside(blocks[j], l);
      }
    }
  }

  lemma KeptTwice(bytes0: Bytes, bytes1: Bytes, bytes2: Bytes, blocks0: seq<Block>, blocks1: seq<Block>)
    requires AllKept(bytes0, bytes1, blocks0) && AllKept(bytes1, bytes2, blocks1) && blocks0 <= blocks1
    ensures AllKept(bytes0, bytes2, blocks0)
  {
    forall j: nat, l: nat
      ensures KeptAt(bytes0, bytes2, blocks0, j, l)
    {
      assert KeptAt(bytes0, bytes1, blocks0, j, l) && KeptAt(bytes1, bytes2, blocks1, j, l);
    }
  }

  // ----- Recording a smaller request -----

  function WithReq(b: Block, k: nat, req: nat): Block
    requires k < |b.cells|
  {
    b.(cells := b.cells[k := b.cells[k].(req := req)])
  }

  ghost function Resize(s: State, blocks: seq<Block>, i: nat, k: nat, req: nat): State
    requires Inv(s, blocks) && i < |blocks| && k < |blocks[i].cells|
  {
    AllFacets(s, blocks);
    assert MinorsLinked(s.minors, blocks, i) && CellLinked(s.minors, blocks[i], k);
    var a := blocks[i].cells[k].addr;
    s.(minors := s.minors[a := s.minors[a].(req := req)])
  }

  lemma ResizedLive(minors: Minors, blocks: seq<Block>, i: nat, k: nat, req: nat)
    requires i < |blocks| && k < |blocks[i].cells| && AllLiveOrDead(minors, blocks) && blocks[i].cells[k].addr in minors
    ensures var a := blocks[i].cells[k].addr;
            AllLiveOrDead(minors[a := minors[a].(req := req)], blocks[i := WithReq(blocks[i], k, req)])
  {
    var blocks', a0 := blocks[i := WithReq(blocks[i], k, req)], blocks[i].cells[k].addr;
    var minors' := minors[a0 := minors[a0].(req := req)];
    forall a: nat
      ensures LiveOrDead(minors', blocks', a)
    {
      assert LiveOrDead(minors, blocks, a) && CellHere(blocks, i, k, a0);
      if Live(blocks, a) {
        var j: nat, l: nat :| CellHere(blocks, j, l, a);
        assert CellHere(blocks', j, l, a);
      }
    }
  }

  lemma ResizedBytes(bytes: Bytes, blocks: seq<Block>, i: nat, k: nat, req: nat)
    requires i < |blocks| && k < |blocks[i].cells| && BytesOk(bytes, blocks)
    ensures BytesOk(bytes, blocks[i := WithReq(blocks[i], k, req)])
  {
    var blocks' := blocks[i := WithReq(blocks[i], k, req)];
    forall j: nat
      ensures Covered(bytes, blocks', j)
    {
      assert Covered(bytes, blocks, j);
    }
    forall j: nat, l: nat
      ensures AlignByte(bytes, blocks', j, l)
    {
      assert AlignByte(bytes, blocks, j, l);
    }
  }

  lemma ResizeKeepsInv(s: State, blocks: seq<Block>, i: nat, k: nat, req: nat)
    requires Inv(s, blocks) && i < |blocks| && k < |blocks[i].cells| && req <= blocks[i].cells[k].req
    ensures Inv(Resize(s, blocks, i, k, req), blocks[i := WithReq(blocks[i], k, req)])
  {
    AllFacets(s, blocks);
    var s', b, b' := Resize(s, blocks, i, k, req), blocks[i], WithReq(blocks[i], k, req);
    var blocks' := blocks[i := b'];
    assert BlockAt(blocks, i) && MajorLinked(s.majors, blocks, i) && MinorsLinked(s.minors, blocks, i);
    assert CellLinked(s.minors, b, k);
    ResizedBlock(b, k, req);
    HeapOkUpdate(blocks, i, b');
    MajorsAfterUpdate(s.majors, blocks, i, b');
    assert s.majors == s.majors[b'.addr := s.majors[b'.addr].(usage := Usage(b'), first := CellAddr(b', 0))];
    CellInside(b, k);
    forall j: nat
      ensures MinorsLinked(s'.minors, blocks', j)
    {
      assert MinorsLinked(s.minors, blocks, j);
      if j == i {
        ResizedCells(s.minors, b, k, req);
      } else {
        OtherBlocksKeepCells(s.minors, s'.minors, blocks, i, j);
        assert MinorsLinked(s'.minors, blocks, j);
      }
    }
    ResizedLive(s.minors, blocks, i, k, req);
    ResizedBytes(s.bytes, blocks, i, k, req);
    BetAfterUpdate(s.bestBet, blocks, i, b');
    TotalsUpdate(blocks, i, b');
  }

  lemma ResizedBlock(b: Block, k: nat, req: nat)
    requires BlockOk(b) && k < |b.cells| && req <= b.cells[k].req
    ensures BlockOk(WithReq(b, k, req)) && Usage(WithReq(b, k, req)) == Usage(b)
  {
    var b' := WithReq(b, k, req);
    forall j: nat
      ensures GapOk(b', j) && CellOk(b', j)
    {
      assert GapOk(b, j) && CellOk(b, j) && CellOk(b, k);
    }
    var c, c' := b.cells[k], b'.cells[k];
    assert b.cells == b.cells[..k] + ([c] + b.cells[k + 1..]);
    assert b'.cells == b.cells[..k] + ([c'] + b.cells[k + 1..]);
    SpentConcat(b.cells[..k], [c] + b.cells[k + 1..]);
    SpentConcat(b.cells[..k], [c'] + b.cells[k + 1..]);
    SpentConcat([c], b.cells[k + 1..]);
    SpentConcat([c'], b.cells[k + 1..]);
  }

  lemma ResizedCells(minors: Minors, b: Block, k: nat, req: nat)
    requires BlockOk(b) && CellsLinked(minors, b) && k < |b.cells| && b.cells[k].addr in minors
    ensures CellsLinked(minors[b.cells[k].addr := minors[b.cells[k].addr].(req := req)], WithReq(b, k, req))
  {
    var b', a := WithReq(b, k, req), b.cells[k].addr;
    var minors' := minors[a := minors[a].(req := req)];
    forall j: nat
      ensures CellLinked(minors', b', j)
    {
      assert CellLinked(minors, b, j);
      if j < |b.cells| && j != k {
        CellsDiffer(b, j, k);
      }
    }
  }

  // ----- Writing into a payload -----

  /** The two memories differ at most in the payload of `c`. */
  ghost predicate WritesInto(bytes: Bytes, bytes': Bytes, c: Cell) {
    && bytes'.Keys == bytes.Keys
    && forall x | x in bytes && !(Payload(c) <= x < Payload(c) + c.req) :: bytes'[x] == bytes[x]
  }

  lemma WriteKeepsInv(s: State, blocks: seq<Block>, i: nat, k: nat, bytes': Bytes)
    requires Inv(s, blocks) && i < |blocks| && k < |blocks[i].cells| && WritesInto(s.bytes, bytes', blocks[i].cells[k])
    ensures Inv(s.(bytes := bytes'), blocks)
    ensures forall j: nat, l: nat | j != i || l != k :: KeptAt(s.bytes, bytes', blocks, j, l)
  {
    AllFacets(s, blocks);
    var c := blocks[i].cells[k];
    assert BlockAt(blocks, i);
    PayloadInside(blocks[i], k);
    forall j: nat
      ensures Covered(bytes', blocks, j)
    {
      assert Covered(s.bytes, blocks, j);
    }
    forall j: nat, l: nat
      ensures AlignByte(bytes', blocks, j, l)
      ensures j != i || l != k ==> KeptAt(s.bytes, bytes', blocks, j, l)
    {
      assert AlignByte(s.bytes, blocks, j, l);
      if j < |blocks| && l < |blocks[j].cells| {
        assert BlockAt(blocks, j);
        PayloadInside(blocks[j], l);
        if j != i || l != k {
          CellsDisjoint(blocks, i, k, j, l);
        }
      }
    }
  }

  // ----- The allocations as a set -----

  ghost function Cells(blocks: seq<Block>): (s: set<Cell>)
    ensures forall i, k | 0 <= i < |blocks| && 0 <= k < |blocks[i].cells| :: blocks[i].cells[k] in s
  {
    set i, k | 0 <= i < |blocks| && 0 <= k < |blocks[i].cells| :: blocks[i].cells[k]
  }

  /** Different positions hold different allocations. */
  lemma CellPosition(blocks: seq<Block>, i: nat, k: nat, j: nat, l: nat)
    requires HeapOk(blocks) && i < |blocks| && k < |blocks[i].cells| && j < |blocks| && l < |blocks[j].cells|
    requires blocks[i].cells[k] == blocks[j].cells[l]
    ensures i == j && k == l
  {
    CellUnique(blocks, i, k, j, l, blocks[i].cells[k].addr);
  }

  lemma CellsAfterInsert(blocks: seq<Block>, i: nat, k: nat, c: Cell)
    requires i < |blocks| && k <= |blocks[i].cells|
    ensures Cells(blocks[i := InsertCell(blocks[i], k, c)]) == Cells(blocks) + {c}
  {
    var blocks' := blocks[i := InsertCell(blocks[i], k, c)];
    assert blocks'[i].cells[k] == c;
    forall d | d in Cells(blocks)
      ensures d in Cells(blocks')
    {
      var j, l :| 0 <= j < |blocks| && 0 <= l < |blocks[j].cells| && blocks[j].cells[l] == d;
      assert blocks'[j].cells[if j == i && l >= k then l + 1 else l] == d;
    }
    forall d | d in Cells(blocks')
      ensures d in Cells(blocks) || d == c
    {
      var j, l :| 0 <= j < |blocks'| && 0 <= l < |blocks'[j].cells| && blocks'[j].cells[l] == d;
      assert (j == i && l == k) || blocks[j].cells[if j == i && l > k then l - 1 else l] == d;
    }
  }

  lemma CellsAfterRemove(blocks: seq<Block>, i: nat, k: nat)
    requires HeapOk(blocks) && i < |blocks| && k < |blocks[i].cells|
    ensures Cells(blocks[i := RemoveCell(blocks[i], k)]) == Cells(blocks) - {blocks[i].cells[k]}
  {
    var blocks' := blocks[i := RemoveCell(blocks[i], k)];
    forall d | d in Cells(blocks) && d != blocks[i].cells[k]
      ensures d in Cells(blocks')
    {
      var j, l :| 0 <= j < |blocks| && 0 <= l < |blocks[j].cells| && blocks[j].cells[l] == d;
      assert blocks'[j].cells[if j == i && l > k then l - 1 else l] == d;
    }
    forall d | d in Cells(blocks')
      ensures d in Cells(blocks) && d != blocks[i].cells[k]
    {
      var j, l :| 0 <= j < |blocks'| && 0 <= l < |blocks'[j].cells| && blocks'[j].cells[l] == d;
      var l0 := if j == i && l >= k then l + 1 else l;
      assert blocks[j].cells[l0] == d;
      if d == blocks[i].cells[k] {
        CellPosition(blocks, i, k, j, l0);
      }
    }
  }

  lemma CellsAfterEmpty(blocks: seq<Block>, i: nat)
    requires i < |blocks| && blocks[i].cells == []
    ensures Cells(blocks[..i] + blocks[i + 1..]) == Cells(blocks)
  {
    var rest := blocks[..i] + blocks[i + 1..];
    forall d | d in Cells(blocks)
      ensures d in Cells(rest)
    {
      var j, l :| 0 <= j < |blocks| && 0 <= l < |blocks[j].cells| && blocks[j].cells[l] == d;
      assert rest[if j < i then j else j - 1].cells[l] == d;
    }
    forall d | d in Cells(rest)
      ensures d in Cells(blocks)
    {
      var j, l :| 0 <= j < |rest| && 0 <= l < |rest[j].cells| && rest[j].cells[l] == d;
      assert blocks[if j < i then j else j + 1].cells[l] == d;
    }
  }

  lemma CellsAfterAppend(blocks: seq<Block>, b: Block)
    ensures Cells(blocks + [b]) == Cells(blocks) + Cells([b])
  {
    var blocks' := blocks + [b];
    forall d | d in Cells(blocks)
      ensures d in Cells(blocks')
    {
      var j, l :| 0 <= j < |blocks| && 0 <= l < |blocks[j].cells| && blocks[j].cells[l] == d;
      assert blocks'[j].cells[l] == d;
    }
    forall d | d in Cells([b])
      ensures d in Cells(blocks')
    {
      var l :| 0 <= l < |b.cells| && b.cells[l] == d;
      assert blocks'[|blocks|].cells[l] == d;
    }
    forall d | d in Cells(blocks')
      ensures d in Cells(blocks) || d in Cells([b])
    {
      var j, l :| 0 <= j < |blocks'| && 0 <= l < |blocks'[j].cells| && blocks'[j].cells[l] == d;
      assert j < |blocks| ==> blocks[j].cells[l] == d;
      assert j == |blocks| ==> [b][0].cells[l] == d;
    }
  }

  lemma CellsAfterResize(blocks: seq<Block>, i: nat, k: nat, req: nat)
    requires HeapOk(blocks) && i < |blocks| && k < |blocks[i].cells|
    ensures var c := blocks[i].cells[k];
            Cells(blocks[i := WithReq(blocks[i], k, req)]) == Cells(blocks) - {c} + {c.(req := req)}
  {
    var blocks', c := blocks[i := WithReq(blocks[i], k, req)], blocks[i].cells[k];
    assert blocks'[i].cells[k] == c.(req := req);
    forall d | d in Cells(blocks) && d != c
      ensures d in Cells(blocks')
    {
      var j, l :| 0 <= j < |blocks| && 0 <= l < |blocks[j].cells| && blocks[j].cells[l] == d;
      assert blocks'[j].cells[l] == d;
    }
    forall d | d in Cells(blocks')
      ensures d in Cells(blocks) - {c} + {c.(req := req)}
    {
      var j, l :| 0 <= j < |blocks'| && 0 <= l < |blocks'[j].cells| && blocks'[j].cells[l] == d;
      if j != i || l != k {
        assert blocks[j].cells[l] == d;
        if d == c {
          CellPosition(blocks, i, k, j, l);
        }
      }
    }
  }

  lemma KeptCell(bytes: Bytes, bytes': Bytes, blocks: seq<Block>, c: Cell)
    requires AllKept(bytes, bytes', blocks) && c in Cells(blocks)
    ensures Kept(bytes, bytes', c)
  {
    var i, k :| 0 <= i < |blocks| && 0 <= k < |blocks[i].cells| && blocks[i].cells[k] == c;
    assert KeptAt(bytes, bytes', blocks, i, k);
  }

  // ----- The pages behind the blocks -----

  function ExtentOf(b: Block): Extent {
    Extent(b.addr / 4096, b.pages)
  }

  /** The page ranges of the heap. */
  ghost function Extents(blocks: seq<Block>): set<Extent> {
    set i | 0 <= i < |blocks| :: ExtentOf(blocks[i])
  }

  /** Page `q` of a block is on the frame the block says, and writable. */
  ghost predicate BackedPage(mem: Memory, pd: nat, b: Block, q: nat)
    requires pd < FRAMES
  {
    b.addr / 4096 <= q < b.addr / 4096 + |b.frames| ==>
      q < WINDOW_PAGE && Walk(mem, pd, q) == Some(b.frames[q - b.addr / 4096]) && Writable(mem, pd, q)
  }

  ghost predicate Backed(mem: Memory, pd: nat, b: Block)
    requires pd < FRAMES
  {
    |b.frames| == b.pages && forall q: nat :: BackedPage(mem, pd, b, q)
  }

  ghost predicate AllBacked(mem: Memory, pd: nat, blocks: seq<Block>)
    requires pd < FRAMES
  {
    forall i | 0 <= i < |blocks| :: Backed(mem, pd, blocks[i])
  }

  /**
   Everyone else's part of the address space: the ranges they hold, the page tables
   and frames in use when it all began, and the page tables when they last looked.
   */
  datatype Around = Around(held: set<Extent>, base: set<nat>, start: Memory, seen: Memory)

  /** The holders of pages other than the heap. */
  class Others {
    ghost var around: Around

    constructor (m: Mmu)
      requires m.Valid()
      ensures around == Around({}, m.frames.Used(), m.mem, m.mem)
    {
      around := Around({}, m.frames.Used(), m.mem, m.mem);
    }
  }

  /**
   The heap shares the address space: its ranges are nobody else's, its blocks are
   where they were put, and everyone else's pages are where they were last seen.
   */
  ghost predicate Housed(mem: Memory, pd: nat, around: Around, blocks: seq<Block>)
    requires pd < FRAMES
  {
    && around.held !! Extents(blocks)
    && Undisturbed(around.seen, mem, pd, around.held)
    && AllBacked(mem, pd, blocks)
  }

  /** All ranges held, by the heap or by others. */
  ghost function Holdings(around: Around, blocks: seq<Block>): set<Extent> {
    around.held + Extents(blocks)
  }

  lemma PagesOfMore(held: set<Extent>, more: set<Extent>)
    requires held <= more
    ensures HeldPages(held) <= HeldPages(more)
  {
  }

  lemma UndisturbedTwice(mem0: Memory, mem1: Memory, mem2: Memory, pd: nat, held: set<Extent>, more: set<Extent>)
    requires pd < FRAMES && held <= more && Undisturbed(mem0, mem1, pd, held) && Undisturbed(mem1, mem2, pd, more)
    ensures Undisturbed(mem0, mem2, pd, held)
  {
    PagesOfMore(held, more);
    forall q: nat | q in HeldPages(held)
      ensures SamePage(mem0, mem2, pd, q)
    {
      assert SamePage(mem0, mem1, pd, q) && SamePage(mem1, mem2, pd, q);
    }
  }

  lemma BlockPage(blocks: seq<Block>, i: nat, q: nat)
    requires i < |blocks| && blocks[i].addr / 4096 <= q < blocks[i].addr / 4096 + blocks[i].pages
    ensures q in HeldPages(Extents(blocks))
  {
    assert ExtentOf(blocks[i]) in Extents(blocks) && q in Pages(ExtentOf(blocks[i]));
  }

  lemma StillBacked(mem: Memory, mem': Memory, pd: nat, b: Block)
    requires pd < FRAMES && Backed(mem, pd, b) && SamePages(mem, mem', pd, Pages(ExtentOf(b)))
    ensures Backed(mem', pd, b)
  {
    forall q: nat
      ensures BackedPage(mem', pd, b, q)
    {
      assert BackedPage(mem, pd, b, q);
      assert q in Pages(ExtentOf(b)) ==> SamePage(mem, mem', pd, q);
    }
  }

  /** Page tables change, but not for the ranges held: the heap stays housed. */
  lemma HousedStays(mem: Memory, mem': Memory, pd: nat, around: Around, blocks: seq<Block>)
    requires pd < FRAMES && Housed(mem, pd, around, blocks) && Undisturbed(mem, mem', pd, Holdings(around, blocks))
    ensures Housed(mem', pd, around, blocks)
  {
    UndisturbedTwice(around.seen, mem, mem', pd, around.held, Holdings(around, blocks));
    PagesOfMore(Extents(blocks), Holdings(around, blocks));
    forall i | 0 <= i < |blocks|
      ensures Backed(mem', pd, blocks[i])
    {
      forall q: nat | q in Pages(ExtentOf(blocks[i]))
        ensures SamePage(mem, mem', pd, q)
      {
        BlockPage(blocks, i, q);
      }
      StillBacked(mem, mem', pd, blocks[i]);
    }
  }

  /** The frames behind a range of mapped pages. */
  ghost function FramesAt(mem: Memory, pd: nat, p: nat, n: nat): (s: seq<nat>)
    requires pd < FRAMES && p + n <= WINDOW_PAGE
    ensures |s| == n && forall j | 0 <= j < n :: s[j] == FrameAt(mem, pd, p + j)
  {
    if n == 0 then [] else FramesAt(mem, pd, p, n - 1) + [FrameAt(mem, pd, p + n - 1)]
  }

  ghost function FrameAt(mem: Memory, pd: nat, q: nat): nat
    requires pd < FRAMES && q < WINDOW_PAGE
  {
    if Walk(mem, pd, q).Some? then Walk(mem, pd, q).value else 0
  }

  /** A block just allocated. */
  ghost function NewBlock(mem: Memory, pd: nat, a: nat, n: nat): (b: Block)
    requires pd < FRAMES && a / 4096 + n <= WINDOW_PAGE
    ensures b.addr == a && b.pages == n && b.cells == []
  {
    Block(a, n, [], FramesAt(mem, pd, a / 4096, n))
  }

  lemma HousedGrows(mem: Memory, mem': Memory, pd: nat, around: Around, blocks: seq<Block>, a: nat, n: nat)
    requires pd < FRAMES && a / 4096 + n <= WINDOW_PAGE
    requires Housed(mem, pd, around, blocks) && Undisturbed(mem, mem', pd, Holdings(around, blocks))
    requires Extent(a / 4096, n) !in Holdings(around, blocks)
    requires forall q: nat | a / 4096 <= q < a / 4096 + n :: Writable(mem', pd, q)
    ensures var b := NewBlock(mem', pd, a, n);
            && Housed(mem', pd, around, blocks + [b])
            && Holdings(around, blocks + [b]) == Holdings(around, blocks) + {Extent(a / 4096, n)}
  {
    var b := NewBlock(mem', pd, a, n);
    HousedStays(mem, mem', pd, around, blocks);
    ExtentsAppend(blocks, b);
    forall q: nat
      ensures BackedPage(mem', pd, b, q)
    {
      if a / 4096 <= q < a / 4096 + n {
        assert Writable(mem', pd, q);
      }
    }
  }

  lemma ExtentsAppend(blocks: seq<Block>, b: Block)
    ensures Extents(blocks + [b]) == Extents(blocks) + {ExtentOf(b)}
  {
    var more := blocks + [b];
    assert more[|blocks|] == b;
    forall i | 0 <= i < |blocks|
      ensures ExtentOf(blocks[i]) in Extents(more)
    {
      assert more[i] == blocks[i];
    }
  }

  lemma ExtentsRemove(blocks: seq<Block>, i: nat)
    requires HeapOk(blocks) && i < |blocks|
    ensures Extents(blocks[..i] + blocks[i + 1..]) == Extents(blocks) - {ExtentOf(blocks[i])}
  {
    var rest := blocks[..i] + blocks[i + 1..];
    forall j | 0 <= j < |blocks| && j != i
      ensures ExtentOf(blocks[j]) in Extents(rest) && ExtentOf(blocks[j]) != ExtentOf(blocks[i])
    {
      assert rest[if j < i then j else j - 1] == blocks[j];
      assert BlocksApart(blocks, i, j) && BlockAt(blocks, i) && BlockAt(blocks, j);
    }
    forall j | 0 <= j < |rest|
      ensures ExtentOf(rest[j]) in Extents(blocks) - {ExtentOf(blocks[i])}
    {
      assert rest[j] == blocks[if j < i then j else j + 1];
    }
  }

  /** A block goes back to the system. */
  lemma HousedShrinks(mem: Memory, mem': Memory, pd: nat, around: Around, blocks: seq<Block>, i: nat)
    requires pd < FRAMES && HeapOk(blocks) && i < |blocks| && Housed(mem, pd, around, blocks)
    requires Undisturbed(mem, mem', pd, Holdings(around, blocks) - {ExtentOf(blocks[i])})
    ensures var rest := blocks[..i] + blocks[i + 1..];
            && Housed(mem', pd, around, rest)
            && Holdings(around, rest) == Holdings(around, blocks) - {ExtentOf(blocks[i])}
  {
    var rest := blocks[..i] + blocks[i + 1..];
    ExtentsRemove(blocks, i);
    forall j | 0 <= j < |rest|
      ensures Backed(mem, pd, rest[j])
    {
      assert rest[j] == blocks[if j < i then j else j + 1];
    }
    assert ExtentOf(blocks[i]) in Extents(blocks);
    HousedStays(mem, mem', pd, around, rest);
  }

  /** Changing the allocations of a block moves no page. */
  lemma HousedUpdate(mem: Memory, pd: nat, around: Around, blocks: seq<Block>, i: nat, b: Block)
    requires pd < FRAMES && Housed(mem, pd, around, blocks) && i < |blocks| && b == blocks[i].(cells := b.cells)
    ensures Housed(mem, pd, around, blocks[i := b]) && Holdings(around, blocks[i := b]) == Holdings(around, blocks)
  {
    var blocks' := blocks[i := b];
    forall j | 0 <= j < |blocks|
      ensures ExtentOf(blocks'[j]) == ExtentOf(blocks[j]) && Backed(mem, pd, blocks'[j])
    {
      assert Backed(mem, pd, blocks[j]);
      forall q: nat
        ensures BackedPage(mem, pd, blocks'[j], q)
      {
        assert BackedPage(mem, pd, blocks[j], q);
      }
    }
    assert Extents(blocks') == Extents(blocks);
  }

  // ----- Blocks and pages newly allocated -----

  /** A range nobody holds keeps clear of every block. */
  lemma NewPagesApart(around: Around, blocks: seq<Block>, a: nat, n: nat)
    requires HeapOk(blocks) && a % 4096 == 0 && n > 0
    requires Apart(Holdings(around, blocks) + {Extent(a / 4096, n)}) && Extent(a / 4096, n) !in Holdings(around, blocks)
    ensures forall i | 0 <= i < |blocks| :: BlockEnd(blocks[i]) <= a || a + n * 4096 <= blocks[i].addr
  {
    forall i | 0 <= i < |blocks|
      ensures BlockEnd(blocks[i]) <= a || a + n * 4096 <= blocks[i].addr
    {
      assert BlockAt(blocks, i);
      var e, q := ExtentOf(blocks[i]), blocks[i].addr / 4096;
      assert e in Extents(blocks);
      assert NoOverlap(Holdings(around, blocks) + {Extent(a / 4096, n)}, e, Extent(a / 4096, n));
      assert a / 4096 in Pages(Extent(a / 4096, n)) && q in Pages(e);
      assert a / 4096 !in Pages(e) && q !in Pages(Extent(a / 4096, n));
    }
  }

  // ----- Room -----

  /** The address space has a run of unmapped pages for a block of `size` bytes. */
  ghost predicate SystemHas(mem: Memory, pd: nat, size: nat)
    requires pd < FRAMES
  {
    HasRun(mem, pd, PagesFor(size))
  }

  /** None of the first `n` blocks has a gap of `need` bytes. */
  ghost predicate NoRoomIn(blocks: seq<Block>, n: nat, need: nat) {
    forall j | 0 <= j < n && j < |blocks| :: !HasRoom(blocks[j], need)
  }

  /** Some gap is large enough, or the system can supply a block. */
  ghost predicate HadRoom(blocks: seq<Block>, mem: Memory, pd: nat, size: nat)
    requires pd < FRAMES
  {
    !NoRoomIn(blocks, |blocks|, size + 24) || SystemHas(mem, pd, size)
  }

  /** Contents have to move, and there is no room for them. */
  ghost predicate CopyFails(blocks: seq<Block>, mem: Memory, pd: nat, d: Cell, size: nat)
    requires pd < FRAMES
  {
    0 < d.req < size && !HadRoom(blocks, mem, pd, size + OVERHEAD)
  }

  /** There is never room for 0xFFC00000 bytes, the whole address space below the self-map window. */
  lemma NoRoomForEverything(blocks: seq<Block>, mem: Memory, pd: nat, req: nat)
    requires pd < FRAMES && HeapOk(blocks) && LIMIT <= req && req + OVERHEAD + 48 < WORD
    ensures !HadRoom(blocks, mem, pd, req + OVERHEAD)
  {
    forall j | 0 <= j < |blocks|
      ensures !HasRoom(blocks[j], req + OVERHEAD + 24)
    {
      assert BlockAt(blocks, j);
      GapAtMostUnused(blocks[j], 0);
      if BlockSize(blocks[j]) - Usage(blocks[j]) < req + OVERHEAD + 24 {
        SkipIsSound(blocks[j], req + OVERHEAD + 24);
      }
    }
    var n := PagesFor(req + OVERHEAD);
    PagesSuffice(req + OVERHEAD);
    assert n > WINDOW_PAGE;
    forall p: nat
      ensures !RunBelow(mem, pd, p, n)
    {
    }
  }

  /** An input that shows it: growing any allocation with contents to that size copies to address 0. */
  lemma GrowingToEverythingFails(blocks: seq<Block>, mem: Memory, pd: nat, d: Cell, req: nat)
    requires pd < FRAMES && HeapOk(blocks) && LIMIT <= req && req + OVERHEAD + 48 < WORD
    requires d in Cells(blocks) && d.req > 0
    ensures CopyFails(blocks, mem, pd, d, req)
  {
    NoRoomForEverything(blocks, mem, pd, req);
    var i, k :| 0 <= i < |blocks| && 0 <= k < |blocks[i].cells| && blocks[i].cells[k] == d;
    assert BlockAt(blocks, i);
    CellInside(blocks[i], k);
    PayloadInside(blocks[i], k);
  }
}
