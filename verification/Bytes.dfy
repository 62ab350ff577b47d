/** Bytes, and copying a block of them within one buffer. */
module Bytes {
  import opened BitSets

  type Byte = x: nat | x < 256

  /** Bitwise or. */
  function Or(a: nat, b: nat): nat {
    if a == 0 && b == 0 then 0 else (if a % 2 == 1 || b % 2 == 1 then 1 else 0) + 2 * Or(a / 2, b / 2)
  }

  lemma {:induction false} OrZero(a: nat)
    ensures Or(a, 0) == a && Or(0, a) == a
  {
    if a > 0 {
      OrZero(a / 2);
    }
  }

  lemma OrStep(a: nat, b: nat)
    ensures Or(a, b) == (if a % 2 == 1 || b % 2 == 1 then 1 else 0) + 2 * Or(a / 2, b / 2)
  {
  }

  /** All ones swallow everything. */
  lemma {:induction false} OrOnes(a: nat, k: nat)
    requires a < Pow2(k)
    ensures Or(Pow2(k) - 1, a) == Pow2(k) - 1
  {
    if k > 0 {
      OrOnes(a / 2, k - 1);
      OrStep(Pow2(k) - 1, a);
    }
  }

  lemma {:induction false} OrBound(a: nat, b: nat, k: nat)
    requires a < Pow2(k) && b < Pow2(k)
    ensures Or(a, b) < Pow2(k)
  {
    if k > 0 {
      OrBound(a / 2, b / 2, k - 1);
      OrStep(a, b);
    }
  }

  lemma ByteWidth()
    ensures Pow2(8) == 256
  {
    assert Pow2(4) == 16;
  }

  /** Bitwise or of two bytes. */
  function OrBytes(a: Byte, b: Byte): Byte {
    ByteWidth();
    OrBound(a, b, 8);
    Or(a, b)
  }

  /** The buffer with `num` bytes from `src` also at `dst`. */
  function Moved(s: seq<Byte>, dst: nat, src: nat, num: nat): seq<Byte>
    requires dst + num <= |s| && src + num <= |s|
  {
    s[..dst] + s[src..src + num] + s[dst + num..]
  }

  lemma MovedByteByByte(was: seq<Byte>, now: seq<Byte>, dst: nat, src: nat, num: nat)
    requires |now| == |was| && dst + num <= |was| && src + num <= |was|
    requires forall i :: 0 <= i < dst || dst + num <= i < |was| ==> now[i] == was[i]
    requires forall i :: dst <= i < dst + num ==> now[i] == was[i - dst + src]
    ensures now == Moved(was, dst, src, num)
  {
  }

  /** Correct for every overlap: a destination inside the source is filled from the end. */
  method MemMove(a: array<Byte>, dst: nat, src: nat, num: nat)
    requires dst + num <= a.Length && src + num <= a.Length
    modifies a
    ensures a[..] == Moved(old(a[..]), dst, src, num)
  {
    if dst > src && dst < src + num {
      MoveDown(a, dst, src, num);
    } else {
      MoveUp(a, dst, src, num);
    }
  }

  method MoveDown(a: array<Byte>, dst: nat, src: nat, num: nat)
    requires dst + num <= a.Length && src < dst
    modifies a
    ensures a[..] == Moved(old(a[..]), dst, src, num)
  {
    ghost var was := a[..];
    var left: nat := num;
    while left > 0
      invariant left <= num
      invariant forall i :: 0 <= i < dst + left || dst + num <= i < a.Length ==> a[i] == was[i]
      invariant forall i :: dst + left <= i < dst + num ==> a[i] == was[i - dst + src]
    {
      left := left - 1;
      a[dst + left] := a[src + left];
    }
    MovedByteByByte(was, a[..], dst, src, num);
  }

  method MoveUp(a: array<Byte>, dst: nat, src: nat, num: nat)
    requires dst + num <= a.Length && src + num <= a.Length && !(src < dst < src + num)
    modifies a
    ensures a[..] == Moved(old(a[..]), dst, src, num)
  {
    ghost var was := a[..];
    for done := 0 to num
      invariant forall i :: 0 <= i < dst || dst + done <= i < a.Length ==> a[i] == was[i]
      invariant forall i :: dst <= i < dst + done ==> a[i] == was[i - dst + src]
    {
      a[dst + done] := a[src + done];
    }
    MovedByteByByte(was, a[..], dst, src, num);
  }
}
