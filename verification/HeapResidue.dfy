/**
 What is left of a heap when some allocations are disregarded. Allocating and freeing
 the disregarded ones leaves it alone, in whatever order that happens; once none is
 left, the heap is its own residue.
 */
module HeapResidue {
  import opened HeapModel
  import opened HeapLinks
  import opened HeapStates
  import opened Heaps

  /** The allocations of a list that are not in `gone`. */
  function Without(cells: seq<Cell>, gone: set<Cell>): seq<Cell> {
    if cells == [] then []
    else Without(cells[..|cells| - 1], gone) + (if cells[|cells| - 1] in gone then [] else [cells[|cells| - 1]])
  }

  function Stripped(b: Block, gone: set<Cell>): seq<Block> {
    var cells := Without(b.cells, gone);
    if cells == [] then [] else [b.(cells := cells)]
  }

  /** The heap without the allocations in `gone` and the blocks that hold no other. */
  function Residue(blocks: seq<Block>, gone: set<Cell>): seq<Block> {
    if blocks == [] then [] else Residue(blocks[..|blocks| - 1], gone) + Stripped(blocks[|blocks| - 1], gone)
  }

  lemma {:induction false} WithoutConcat(s: seq<Cell>, t: seq<Cell>, gone: set<Cell>)
    ensures Without(s + t, gone) == Without(s, gone) + Without(t, gone)
    decreases |t|
  {
    if t == [] {
      assert s + t == s;
    } else {
      var front := t[..|t| - 1];
      assert (s + t)[..|s + t| - 1] == s + front;
      WithoutConcat(s, front, gone);
    }
  }

  lemma {:induction false} ResidueConcat(s: seq<Block>, t: seq<Block>, gone: set<Cell>)
    ensures Residue(s + t, gone) == Residue(s, gone) + Residue(t, gone)
    decreases |t|
  {
    if t == [] {
      assert s + t == s;
    } else {
      var front := t[..|t| - 1];
      assert (s + t)[..|s + t| - 1] == s + front;
      ResidueConcat(s, front, gone);
    }
  }

  lemma ResidueOne(b: Block, gone: set<Cell>)
    ensures Residue([b], gone) == Stripped(b, gone)
  {
    assert [b][..0] == [];
  }

  /** Only the listed allocations matter. */
  lemma {:induction false} WithoutAgree(cells: seq<Cell>, gone: set<Cell>, gone': set<Cell>)
    requires forall c <- cells :: c in gone <==> c in gone'
    ensures Without(cells, gone) == Without(cells, gone')
  {
    if cells != [] {
      WithoutAgree(cells[..|cells| - 1], gone, gone');
    }
  }

  lemma {:induction false} ResidueAgree(blocks: seq<Block>, gone: set<Cell>, gone': set<Cell>)
    requires forall c :: c in Cells(blocks) ==> (c in gone <==> c in gone')
    ensures Residue(blocks, gone) == Residue(blocks, gone')
  {
    if blocks != [] {
      var front, b := blocks[..|blocks| - 1], blocks[|blocks| - 1];
      CellsAfterAppend(front, b);
      assert front + [b] == blocks;
      ResidueAgree(front, gone, gone');
      forall c | c in b.cells
        ensures c in gone <==> c in gone'
      {
        var k :| 0 <= k < |b.cells| && b.cells[k] == c;
        assert [b][0].cells[k] in Cells([b]);
      }
      WithoutAgree(b.cells, gone, gone');
    }
  }

  lemma {:induction false} WithoutNone(cells: seq<Cell>)
    ensures Without(cells, {}) == cells
  {
    if cells != [] {
      WithoutNone(cells[..|cells| - 1]);
    }
  }

  /** With nothing disregarded, nothing is missing. */
  lemma {:induction false} ResidueNone(blocks: seq<Block>)
    requires NoEmptyBlock(blocks)
    ensures Residue(blocks, {}) == blocks
  {
    if blocks != [] {
      var front, b := blocks[..|blocks| - 1], blocks[|blocks| - 1];
      ResidueNone(front);
      WithoutNone(b.cells);
      assert b.(cells := b.cells) == b;
    }
  }

  /** A disregarded allocation may come or go anywhere in a list. */
  lemma WithoutInsert(b: Block, k: nat, c: Cell, gone: set<Cell>)
    requires k <= |b.cells| && c in gone
    ensures Without(InsertCell(b, k, c).cells, gone) == Without(b.cells, gone)
  {
    WithoutConcat(b.cells[..k], [c], gone);
    assert [c][..0] == [];
    WithoutConcat(b.cells[..k] + [c], b.cells[k..], gone);
    WithoutConcat(b.cells[..k], b.cells[k..], gone);
    assert b.cells[..k] + b.cells[k..] == b.cells;
  }

  lemma WithoutRemove(b: Block, k: nat, gone: set<Cell>)
    requires k < |b.cells| && b.cells[k] in gone
    ensures Without(b.cells, gone) == Without(RemoveCell(b, k).cells, gone)
    ensures |b.cells| == 1 ==> Without(b.cells, gone) == []
  {
    var rest := RemoveCell(b, k);
    assert rest.cells[..k] + [b.cells[k]] + rest.cells[k..] == b.cells;
    WithoutInsert(rest, k, b.cells[k], gone);
    assert |b.cells| == 1 ==> rest.cells == [];
  }

  lemma ResidueSplit(blocks: seq<Block>, i: nat, gone: set<Cell>)
    requires i < |blocks|
    ensures Residue(blocks, gone) ==
            Residue(blocks[..i], gone) + Stripped(blocks[i], gone) + Residue(blocks[i + 1..], gone)
  {
    var front, b, back := blocks[..i], [blocks[i]], blocks[i + 1..];
    ThreeParts(blocks, i);
    ResidueConcat(front, b, gone);
    ResidueConcat(front + b, back, gone);
    ResidueOne(blocks[i], gone);
  }

  lemma ThreeParts(blocks: seq<Block>, i: nat)
    requires i < |blocks|
    ensures blocks == blocks[..i] + [blocks[i]] + blocks[i + 1..]
  {
  }

  /** Replacing a block by one with the same residue changes nothing. */
  lemma ResidueUpdate(blocks: seq<Block>, i: nat, b: Block, gone: set<Cell>)
    requires i < |blocks| && b == blocks[i].(cells := b.cells)
    ensures Without(b.cells, gone) == Without(blocks[i].cells, gone) ==>
              Residue(blocks[i := b], gone) == Residue(blocks, gone)
  {
    var blocks' := blocks[i := b];
    ResidueSplit(blocks, i, gone);
    ResidueSplit(blocks', i, gone);
    assert blocks'[..i] == blocks[..i] && blocks'[i + 1..] == blocks[i + 1..];
  }

  /** A block that is all disregarded may go. */
  lemma ResidueDrop(blocks: seq<Block>, i: nat, gone: set<Cell>)
    requires i < |blocks| && Without(blocks[i].cells, gone) == []
    ensures Residue(blocks[..i] + blocks[i + 1..], gone) == Residue(blocks, gone)
  {
    ResidueSplit(blocks, i, gone);
    ResidueConcat(blocks[..i], blocks[i + 1..], gone);
  }

  /** Every block of the residue is a block of the heap, on the same frames. */
  lemma {:induction false} BlockOfResidue(blocks: seq<Block>, gone: set<Cell>, i: nat) returns (j: nat)
    requires i < |Residue(blocks, gone)|
    ensures j < |blocks| && Residue(blocks, gone)[i] == blocks[j].(cells := Residue(blocks, gone)[i].cells)
  {
    var n := |blocks| - 1;
    var front := Residue(blocks[..n], gone);
    if i < |front| {
      j := BlockOfResidue(blocks[..n], gone, i);
    } else {
      j := n;
    }
  }

  /** An allocation disregarded from the start changes nothing. */
  lemma ResidueAfterMalloc(h: Heap, before: seq<Block>, after: seq<Block>, i: nat, k: nat, req: nat, gone: set<Cell>)
    requires HeapOk(after) && h.Placed(before, after, i, k, req)
    ensures Residue(after, gone + {after[i].cells[k]}) == Residue(before, gone)
  {
    var c := after[i].cells[k];
    var more := gone + {c};
    h.CellsAfterMalloc(before, after, i, k, req);
    ResidueAgree(before, gone, more);
    if i < |before| {
      ResidueUpdate(before, i, after[i], more);
      WithoutInsert(before[i], k, c, more);
      assert InsertCell(before[i], k, c) == after[i];
    } else {
      ResidueConcat(before, [after[i]], more);
      ResidueOne(after[i], more);
      assert after[i].cells == [c] && [c][..0] == [];
      assert Without([c], more) == [];
    }
  }

  /** Freeing a disregarded allocation changes nothing. */
  lemma ResidueAfterFree(h: Heap, blocks: seq<Block>, i: nat, k: nat, gone: set<Cell>)
    requires HeapOk(blocks) && i < |blocks| && k < |blocks[i].cells| && blocks[i].cells[k] in gone
    ensures Residue(h.WithoutCell(blocks, i, k), gone - {blocks[i].cells[k]}) == Residue(blocks, gone)
  {
    var c, after := blocks[i].cells[k], h.WithoutCell(blocks, i, k);
    h.CellsAfterFree(blocks, i, k);
    ResidueAgree(after, gone, gone - {c});
    WithoutRemove(blocks[i], k, gone);
    if |blocks[i].cells| == 1 {
      ResidueDrop(blocks, i, gone);
    } else {
      ResidueUpdate(blocks, i, RemoveCell(blocks[i], k), gone);
    }
  }
}
