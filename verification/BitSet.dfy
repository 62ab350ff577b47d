/**
 A fixed-size set of bits stored in 32-bit units, and the proof that every
 operation on the units is the matching operation on a finite set of indices.
 A unit is a number below 2^32; "and", "or" and "and not" with the one-hot mask
 of bit `k` are written as what they do to that number.
 */
module BitSets {

  const BITS_PER_UNIT: nat := 32

  type Unit = u: nat | u < 0x1_0000_0000

  /** The one-hot mask for bit `k`: 1 shifted left `k` times. */
  function Pow2(k: nat): (m: nat)
    ensures m > 0
  {
    if k == 0 then 1 else 2 * Pow2(k - 1)
  }

  /** Bit `k` of `w`, i.e. whether `w & Pow2(k)` is nonzero. */
  predicate Bit(w: nat, k: nat)
    decreases k
  {
    if k == 0 then w % 2 == 1 else Bit(w / 2, k - 1)
  }

  /** A set bit contributes its mask; the units keep their width when a bit is added. */
  lemma {:induction false} BitBounds(w: nat, k: nat, width: nat)
    requires k < width && w < Pow2(width)
    ensures Bit(w, k) ==> w >= Pow2(k)
    ensures !Bit(w, k) ==> w + Pow2(k) < Pow2(width)
    decreases k
  {
    if k > 0 {
      BitBounds(w / 2, k - 1, width - 1);
    }
  }

  lemma UnitWidth()
    ensures Pow2(BITS_PER_UNIT) == 0x1_0000_0000
  {
    assert Pow2(8) == 0x100;
    assert Pow2(16) == 0x1_0000;
    assert Pow2(24) == 0x100_0000;
    assert Pow2(32) == 0x1_0000_0000;
  }

  /** `unit | Pow2(k)` */
  function OrMask(unit: Unit, k: nat): (r: Unit)
    requires k < BITS_PER_UNIT
  {
    UnitWidth();
    BitBounds(unit, k, BITS_PER_UNIT);
    if Bit(unit, k) then unit else unit + Pow2(k)
  }

  /** `unit & ~Pow2(k)` */
  function AndNotMask(unit: Unit, k: nat): (r: Unit)
    requires k < BITS_PER_UNIT
  {
    UnitWidth();
    BitBounds(unit, k, BITS_PER_UNIT);
    if Bit(unit, k) then unit - Pow2(k) else unit
  }

  /** Adding a clear bit's mask sets that bit and no other. */
  lemma {:induction false} AddClearBit(w: nat, k: nat, j: nat)
    requires !Bit(w, k)
    ensures Bit(w + Pow2(k), j) <==> j == k || Bit(w, j)
    decreases k
  {
    if k > 0 && j > 0 {
      AddClearBit(w / 2, k - 1, j - 1);
      assert (w + Pow2(k)) / 2 == w / 2 + Pow2(k - 1);
    } else if k == 0 && j > 0 {
      assert (w + 1) / 2 == w / 2;
    }
  }

  /** Subtracting a set bit's mask clears that bit and no other. */
  lemma {:induction false} SubtractSetBit(w: nat, k: nat, j: nat)
    requires Bit(w, k) && w >= Pow2(k)
    ensures Bit(w - Pow2(k), j) <==> j != k && Bit(w, j)
    decreases k
  {
    if k > 0 && j > 0 {
      SubtractSetBit(w / 2, k - 1, j - 1);
      assert (w - Pow2(k)) / 2 == w / 2 - Pow2(k - 1);
    } else if k == 0 && j > 0 {
      assert (w - 1) / 2 == w / 2;
    }
  }

  lemma BitOfOrMask(unit: Unit, k: nat, j: nat)
    requires k < BITS_PER_UNIT
    ensures Bit(OrMask(unit, k), j) <==> j == k || Bit(unit, j)
  {
    if !Bit(unit, k) {
      AddClearBit(unit, k, j);
    }
  }

  lemma BitOfAndNotMask(unit: Unit, k: nat, j: nat)
    requires k < BITS_PER_UNIT
    ensures Bit(AndNotMask(unit, k), j) <==> j != k && Bit(unit, j)
  {
    if Bit(unit, k) {
      UnitWidth();
      BitBounds(unit, k, BITS_PER_UNIT);
      SubtractSetBit(unit, k, j);
    }
  }

  /** The two units `memset` writes: no bit set, and every bit set. */
  lemma UniformUnit(k: nat)
    requires k < BITS_PER_UNIT
    ensures !Bit(0, k) && Bit(0xFFFF_FFFF, k)
  {
    ZeroHasNoBit(k);
    OnesHaveAllBits(k, BITS_PER_UNIT);
    UnitWidth();
  }

  lemma {:induction false} ZeroHasNoBit(k: nat)
    ensures !Bit(0, k)
  {
    if k > 0 {
      ZeroHasNoBit(k - 1);
    }
  }

  lemma {:induction false} OnesHaveAllBits(k: nat, width: nat)
    requires k < width
    ensures Bit(Pow2(width) - 1, k)
  {
    if k > 0 {
      OnesHaveAllBits(k - 1, width - 1);
      assert (Pow2(width) - 1) / 2 == Pow2(width - 1) - 1;
    }
  }

  /** The indices `start .. start + n - 1`. */
  ghost function Range(start: nat, n: nat): (s: set<nat>)
    ensures forall i: nat :: i in s <==> start <= i < start + n
  {
    if n == 0 then {} else Range(start, n - 1) + {start + n - 1}
  }

  class BitSet {
    const size: nat
    const bits: array<Unit>
    /** The abstract value: the indices whose bit is set. */
    ghost var contents: set<nat>

    predicate Test(bit: nat)
      requires bit < size <= bits.Length * 32
      reads bits
    {
      Bit(bits[bit / 32], bit % 32)
    }

    ghost predicate Agrees(i: nat)
      requires size <= bits.Length * 32
      reads this, bits
    {
      i in contents <==> i < size && Test(i)
    }

    ghost predicate Valid()
      reads this, bits
    {
      size <= bits.Length * 32 && forall i: nat :: Agrees(i)
    }

    constructor (sizeBits: nat, initial: bool)
      ensures Valid() && fresh(bits) && size == sizeBits && bits.Length == (sizeBits + 31) / 32
      ensures contents == if initial then Range(0, sizeBits) else {}
    {
      size := sizeBits;
      var unit: Unit := if initial then 0xFFFF_FFFF else 0;
      bits := new Unit[(sizeBits + 31) / 32](_ => unit);
      contents := if initial then Range(0, sizeBits) else {};
      new;
      forall i: nat
        ensures Agrees(i)
      {
        UniformUnit(i % 32);
      }
    }

    /** `Test` decides membership in the abstract value. */
    method Contains(bit: nat) returns (r: bool)
      requires Valid() && bit < size
      ensures r <==> bit in contents
    {
      assert Agrees(bit);
      r := Test(bit);
    }

    method Set(bit: nat) returns (prev: bool)
      requires Valid() && bit < size
      modifies this, bits
      ensures Valid()
      ensures prev <==> bit in old(contents)
      ensures contents == old(contents) + {bit}
    {
      assert Agrees(bit);
      prev := Test(bit);
      var u, k := bit / 32, bit % 32;
      ghost var unit := bits[u];
      bits[u] := OrMask(bits[u], k);
      contents := contents + {bit};
      forall i: nat
        ensures Agrees(i)
      {
        assert old(Agrees(i));
        BitOfOrMask(unit, k, i % 32);
      }
    }

    method Unset(bit: nat) returns (prev: bool)
      requires Valid() && bit < size
      modifies this, bits
      ensures Valid()
      ensures prev <==> bit in old(contents)
      ensures contents == old(contents) - {bit}
    {
      assert Agrees(bit);
      prev := Test(bit);
      var u, k := bit / 32, bit % 32;
      ghost var unit := bits[u];
      bits[u] := AndNotMask(bits[u], k);
      contents := contents - {bit};
      forall i: nat
        ensures Agrees(i)
      {
        assert old(Agrees(i));
        BitOfAndNotMask(unit, k, i % 32);
      }
    }

    /** Assignment through the subscript proxy. */
    method Assign(bit: nat, value: bool)
      requires Valid() && bit < size
      modifies this, bits
      ensures Valid()
      ensures contents == if value then old(contents) + {bit} else old(contents) - {bit}
    {
      if value {
        var _ := Set(bit);
      } else {
        var _ := Unset(bit);
      }
    }
  }
}
