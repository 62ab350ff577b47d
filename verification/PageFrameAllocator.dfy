/**
 The physical page frame allocator: two bitmaps over all frames of a 32-bit
 address space and a next-fit scan. The methods are proved against finite sets
 of frame indices. A panic is a call that does not return; here it is `None`.
 */
module PageFrames {
  import opened Options
  import opened BitSets

  const FRAMES: nat := 0x10_0000
  const NO_FRAME: nat := 0xFFFF_FFFF
  const AVAILABLE: nat := 1

  /** One entry of the boot loader's memory map. */
  datatype Region = Region(addr: nat, len: nat, kind: nat)

  function FrameToIndex(frame: nat): nat {
    frame / 0x1000
  }

  function IndexToFrame(index: nat): nat {
    index * 0x1000
  }

  /** `w .. w + n - 1` all lie in `free`. */
  ghost predicate Window(free: set<nat>, w: nat, n: nat) {
    Range(w, n) <= free
  }

  /** `w` is the first window met when scanning upwards from `start` and wrapping once. */
  ghost predicate IsNextFit(free: set<nat>, n: nat, start: nat, w: nat) {
    && Window(free, w, n)
    && (start <= w ==> forall v: nat | start <= v < w :: !Window(free, v, n))
    && (w < start ==> forall v: nat | v < w || start <= v :: !Window(free, v, n))
  }

  /** The frames a memory map declares available. */
  ghost function AvailableFrames(regions: seq<Region>): set<nat> {
    if regions == [] then {} else
    var last := regions[|regions| - 1];
    AvailableFrames(regions[..|regions| - 1])
    + (if last.kind == 1 then Range(last.addr / 0x1000, last.len / 0x1000) else {})
  }

  class PageFrameAllocator {
    const usable: BitSet
    const used: BitSet
    var lastAllocFrame: nat

    ghost function Repr(): set<object> {
      {this, usable, used, usable.bits, used.bits}
    }

    ghost predicate Valid()
      reads Repr()
    {
      && usable.bits != used.bits && usable != used
      && usable.Valid() && usable.size == FRAMES
      && used.Valid() && used.size == FRAMES
      && (forall i :: i in usable.contents ==> i < FRAMES)
      && lastAllocFrame < FRAMES * 0x1000
    }

    ghost function Usable(): set<nat>
      reads usable
    {
      usable.contents
    }

    ghost function Used(): set<nat>
      reads used
    {
      used.contents
    }

    /** The frames that may still be handed out. */
    ghost function Free(): set<nat>
      reads usable, used
    {
      Usable() - Used()
    }

    constructor ()
      ensures Valid() && fresh(Repr())
      ensures Usable() == {} && Used() == {}
      ensures lastAllocFrame == 0
    {
      usable := new BitSet(FRAMES, false);
      used := new BitSet(FRAMES, false);
      lastAllocFrame := 0;
    }

    method UsableAndFree(index: nat) returns (r: bool)
      requires Valid() && index < FRAMES
      ensures r <==> index in Free()
    {
      var a := usable.Contains(index);
      var b := used.Contains(index);
      r := a && !b;
    }

    method LoadMemoryMap(regions: seq<Region>)
      requires Valid()
      requires forall r :: r in regions ==> r.addr / 0x1000 + r.len / 0x1000 <= FRAMES
      modifies usable, usable.bits
      ensures Valid()
      ensures Usable() == old(Usable()) + AvailableFrames(regions)
    {
      for k := 0 to |regions|
        invariant Valid() && Usable() == old(Usable()) + AvailableFrames(regions[..k])
      {
        assert regions[k] in regions;
        assert regions[..k + 1][..k] == regions[..k];
        if regions[k].kind == AVAILABLE {
          MarkRangeUsable(regions[k].addr / 0x1000, regions[k].len / 0x1000);
        }
      }
      assert regions[..|regions|] == regions;
    }

    method MarkRangeUsable(offset: nat, pages: nat)
      requires Valid() && offset + pages <= FRAMES
      modifies usable, usable.bits
      ensures Valid()
      ensures Usable() == old(Usable()) + Range(offset, pages)
    {
      for i := offset to offset + pages
        invariant Valid() && Usable() == old(Usable()) + Range(offset, i - offset)
      {
        usable.Assign(i, true);
      }
    }

    method MarkFrameUsable(frame: nat, value: bool)
      requires Valid() && frame < FRAMES * 0x1000
      modifies usable, usable.bits
      ensures Valid()
      ensures Usable() == if value then old(Usable()) + {FrameToIndex(frame)} else old(Usable()) - {FrameToIndex(frame)}
    {
      usable.Assign(FrameToIndex(frame), value);
    }

    method RequestFrameIndex(index: nat) returns (ok: bool)
      requires Valid() && index < FRAMES
      modifies used, used.bits
      ensures Valid()
      ensures ok <==> index in old(Free())
      ensures Used() == if ok then old(Used()) + {index} else old(Used())
    {
      ok := UsableAndFree(index);
      if ok {
        used.Assign(index, true);
      }
    }

    /**
     The scan's step: take the window at `i` if all of it is usable and free. Every
     frame of it is looked at, even one past the end of the bitmap.
     */
    method FindFrames(i: nat, n: nat) returns (found: bool, past: bool)
      requires Valid() && n > 0
      modifies this, used, used.bits
      ensures Valid()
      ensures past <==> i + n > FRAMES
      ensures !past ==> (found <==> Window(old(Free()), i, n))
      ensures found ==> !past && Used() == old(Used()) + Range(i, n) && lastAllocFrame == IndexToFrame(i + n - 1)
      ensures !found ==> Used() == old(Used()) && lastAllocFrame == old(lastAllocFrame)
    {
      found := true;
      for offset := 0 to n
        invariant Valid() && Used() == old(Used()) && lastAllocFrame == old(lastAllocFrame)
        invariant i + offset <= FRAMES || offset == 0
        invariant found <==> Window(Free(), i, offset)
      {
        if i + offset >= FRAMES {
          return false, true;
        }
        var ok := UsableAndFree(i + offset);
        assert i + offset in Range(i, offset + 1);
        assert Range(i, offset + 1) == Range(i, offset) + {i + offset};
        found := found && ok;
      }
      past := false;
      if found {
        for offset := 0 to n
          invariant Valid()
          invariant Used() == old(Used()) + Range(i, offset)
        {
          used.Assign(i + offset, true);
        }
        lastAllocFrame := IndexToFrame(i + n - 1);
      }
    }

    /**
     Next-fit allocation; no frame when memory is exhausted. For more than one frame
     the scan does not keep its windows inside the bitmap: it runs past the end
     exactly when no window lies at or after the starting point.
     */
    method Alloc(n: nat) returns (r: Option<nat>, past: bool)
      requires Valid()
      modifies this, used, used.bits
      ensures Valid()
      ensures past <==> n > 1 && forall w: nat | FrameToIndex(old(lastAllocFrame)) <= w :: !Window(old(Free()), w, n)
      ensures n == 0 ==> r == Some(0xFFFF_FFFF) && Used() == old(Used()) && lastAllocFrame == old(lastAllocFrame)
      ensures n > 0 && !past ==> (r.None? <==> forall w: nat :: !Window(old(Free()), w, n))
      ensures past || r.None? ==> Used() == old(Used())
      ensures n > 0 && !past && r.Some? ==>
                var w := FrameToIndex(r.value);
                && r.value == IndexToFrame(w)
                && IsNextFit(old(Free()), n, FrameToIndex(old(lastAllocFrame)), w)
                && Used() == old(Used()) + Range(w, n)
                && lastAllocFrame == IndexToFrame(w + n - 1)
    {
      past := false;
      if n == 0 {
        return Some(NO_FRAME), past;
      }
      var start := FrameToIndex(lastAllocFrame);
      ghost var free := Free();
      WindowsInBounds(free, n);
      r, past := Scan(start, FRAMES, n);
      if !past && r.None? {
        assert Free() == free;
        r, past := Scan(0, start, n);
      }
    }

    /** One leg of the scan: the lowest window starting in `lo .. hi - 1`. */
    method Scan(lo: nat, hi: nat, n: nat) returns (r: Option<nat>, past: bool)
      requires Valid() && n > 0 && lo <= hi <= FRAMES
      modifies this, used, used.bits
      ensures Valid()
      ensures past <==> (lo < hi && hi + n - 1 > FRAMES && forall w: nat | lo <= w < hi :: !Window(old(Free()), w, n))
      ensures past ==> r.None?
      ensures r.None? ==> forall w: nat | lo <= w < hi :: !Window(old(Free()), w, n)
      ensures r.None? ==> Used() == old(Used()) && lastAllocFrame == old(lastAllocFrame)
      ensures r.Some? ==>
                var w := FrameToIndex(r.value);
                && r.value == IndexToFrame(w)
                && lo <= w < hi
                && Window(old(Free()), w, n)
                && (forall v: nat | lo <= v < w :: !Window(old(Free()), v, n))
                && Used() == old(Used()) + Range(w, n)
                && lastAllocFrame == IndexToFrame(w + n - 1)
    {
      ghost var free := Free();
      var i := lo;
      while i < hi
        invariant lo <= i <= hi && (i > lo ==> i - 1 + n <= FRAMES)
        invariant Valid() && lastAllocFrame == old(lastAllocFrame) && Used() == old(Used())
        invariant forall v: nat | lo <= v < i :: !Window(free, v, n)
      {
        var found;
        found, past := FindFrames(i, n);
        if past {
          PastTheEnd(free, i, n);
          return None, true;
        }
        if found {
          return Some(IndexToFrame(i)), false;
        }
        i := i + 1;
      }
      return None, false;
    }

    lemma PastTheEnd(free: set<nat>, i: nat, n: nat)
      requires i + n > FRAMES && n > 0 && forall f :: f in free ==> f < FRAMES
      ensures forall v: nat | i <= v :: !Window(free, v, n)
    {
      forall v: nat | i <= v
        ensures !Window(free, v, n)
      {
        assert v + n - 1 in Range(v, n) && v + n - 1 !in free;
      }
    }

    lemma WindowsInBounds(free: set<nat>, n: nat)
      requires n > 0
      requires forall f :: f in free ==> f < FRAMES
      ensures forall v: nat | FRAMES <= v :: !Window(free, v, n)
    {
      forall v: nat | FRAMES <= v
        ensures !Window(free, v, n)
      {
        assert v in Range(v, n) && v !in free;
      }
    }

    method FreeFrames(frame: nat, n: nat)
      requires Valid() && FrameToIndex(frame) + n <= FRAMES
      modifies used, used.bits
      ensures Valid()
      ensures Used() == old(Used()) - Range(FrameToIndex(frame), n)
    {
      var index := FrameToIndex(frame);
      for i := 0 to n
        invariant Valid() && Used() == old(Used()) - Range(index, i)
      {
        used.Assign(index + i, false);
      }
    }
  }
}
