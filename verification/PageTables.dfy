/**
 Two-level 32-bit paging over physical memory: page entries, the hardware walk,
 the recursive self-map, and the ownership of frames. Physical memory is a
 sequence of frames of 1024 words. A word is a number below 2^32, so masking
 with 0xFFFFF000 and 0xFFF is division and remainder by 4096.
 */
module PageTables {
  import opened Options
  import opened PageFrames

  const ENTRIES: nat := 1024
  /** The directory slot that holds the directory itself. */
  const SELF_MAP: nat := 1023
  const SELF_MAP_BASE: nat := 0xFFC0_0000
  /** The first page of the self-map window. */
  const WINDOW_PAGE: nat := 0xF_FC00

  const PRESENT: nat := 1
  const READ_WRITE: nat := 2

  type Word = w: nat | w < 0x1_0000_0000
  type Table = t: seq<Word> | |t| == ENTRIES ghost witness Zeros(ENTRIES)
  type Memory = m: seq<Table> | |m| == FRAMES ghost witness ZeroTables(FRAMES)

  function Zeros(n: nat): (t: seq<Word>)
    ensures |t| == n && forall i | 0 <= i < n :: t[i] == 0
  {
    if n == 0 then [] else Zeros(n - 1) + [0]
  }

  ghost function ZeroTables(n: nat): (m: seq<Table>)
    ensures |m| == n
  {
    if n == 0 then [] else ZeroTables(n - 1) + [Zeros(ENTRIES)]
  }

  // ----- Page entries -----

  /** A page entry for the frame that holds `address`, with all flags clear. */
  function PageEntry(address: Word): (e: Word)
  {
    address / 0x1000 * 0x1000
  }

  function FrameOf(e: Word): (f: nat)
    ensures f < FRAMES
  {
    e / 0x1000
  }

  function Flags(e: Word): nat {
    e % 0x1000
  }

  predicate Present(e: Word) {
    e % 2 == 1
  }

  function SetFlags(e: Word, flags: Word): (r: Word)
  {
    e / 0x1000 * 0x1000 + flags % 0x1000
  }

  /** `e | PRESENT` */
  function SetPresent(e: Word): (r: Word) {
    if e % 2 == 1 then e else e + 1
  }

  /** `e | READ_WRITE` */
  function SetReadWrite(e: Word): (r: Word) {
    if e / 2 % 2 == 1 then e else e + 2
  }

  /** The entry written for a dynamically mapped frame or a new table. */
  function MappedEntry(frame: nat): (e: Word)
    requires frame < FRAMES
  {
    frame * 0x1000 + PRESENT + READ_WRITE
  }

  /** How the code writes that entry. */
  lemma MappedEntryForm(frame: nat)
    requires frame < FRAMES
    ensures SetFlags(PageEntry(frame * 0x1000), PRESENT + READ_WRITE) == MappedEntry(frame)
  {
    FrameArithmetic(frame, 0);
  }

  /** Splitting a word into frame number and flags. */
  lemma FrameArithmetic(frame: nat, flags: nat)
    requires flags < 0x1000
    ensures (frame * 0x1000 + flags) / 0x1000 == frame && (frame * 0x1000 + flags) % 0x1000 == flags
    ensures (frame * 0x1000 + flags) % 2 == flags % 2
  {
    assert frame * 0x1000 + flags == 2 * (frame * 0x800) + flags;
  }

  lemma MappedEntryFields(frame: nat)
    requires frame < FRAMES
    ensures FrameOf(MappedEntry(frame)) == frame && Flags(MappedEntry(frame)) == 3
    ensures Present(MappedEntry(frame))
  {
    FrameArithmetic(frame, 3);
  }

  // ----- The walk -----

  /** The entry that maps a page: its frame and its access rights. */
  function Entry(mem: Memory, pd: nat, page: nat): (r: Option<Word>)
    requires pd < FRAMES && page < FRAMES
  {
    var pde := mem[pd][page / 1024];
    if !Present(pde) then None else
    var pte := mem[FrameOf(pde)][page % 1024];
    if !Present(pte) then None else Some(pte)
  }

  /** Translation of a page number to a frame number. */
  function Walk(mem: Memory, pd: nat, page: nat): (r: Option<nat>)
    requires pd < FRAMES && page < FRAMES
  {
    match Entry(mem, pd, page)
    case None => None
    case Some(e) => Some(FrameOf(e))
  }

  /** The page is mapped with bits 0 and 1, present and writable, and no other flag. */
  ghost predicate Writable(mem: Memory, pd: nat, page: nat)
    requires pd < FRAMES
  {
    page < FRAMES && Entry(mem, pd, page).Some? && Entry(mem, pd, page).value % 0x1000 == 3
  }

  /** A writable page's entry is told by its frame. */
  lemma EntryIs(mem: Memory, pd: nat, page: nat)
    requires pd < FRAMES && Writable(mem, pd, page)
    ensures Walk(mem, pd, page).Some? && Entry(mem, pd, page) == Some(Walk(mem, pd, page).value * 0x1000 + 3)
  {
  }

  /** Translation of a word's virtual address to its frame and index, or a page fault. */
  function WalkWord(mem: Memory, pd: nat, va: Word): (r: Option<(nat, nat)>)
    requires pd < FRAMES
  {
    match Walk(mem, pd, va / 0x1000)
    case None => None
    case Some(f) => Some((f, va % 0x1000 / 4))
  }

  predicate HasTable(mem: Memory, pd: nat, i: nat)
    requires pd < FRAMES && i < ENTRIES
  {
    Present(mem[pd][i])
  }

  function TableFrame(mem: Memory, pd: nat, i: nat): (f: nat)
    requires pd < FRAMES && i < ENTRIES
    ensures f < FRAMES
  {
    FrameOf(mem[pd][i])
  }

  ghost predicate SelfMapped(mem: Memory, pd: nat) {
    pd < FRAMES && HasTable(mem, pd, SELF_MAP) && TableFrame(mem, pd, SELF_MAP) == pd
  }

  /** The virtual address of entry `j` of table `i` inside the self-map window. */
  function EntryAddress(i: nat, j: nat): (va: Word)
    requires i < ENTRIES && j < ENTRIES
    ensures va % 4 == 0
  {
    SELF_MAP_BASE + 0x1000 * i + 4 * j
  }

  /**
   The self-map: walking `EntryAddress(i, j)` reaches entry `j` of table `i`, the
   directory itself for `i == 1023`, and faults exactly when there is no table `i`.
   */
  lemma SelfMap(mem: Memory, pd: nat, i: nat, j: nat)
    requires SelfMapped(mem, pd) && i < ENTRIES && j < ENTRIES
    ensures WalkWord(mem, pd, EntryAddress(i, j))
            == if HasTable(mem, pd, i) then Some((TableFrame(mem, pd, i), j)) else None
    ensures WalkWord(mem, pd, EntryAddress(SELF_MAP, j)) == Some((pd, j))
  {
    WindowPage(i, j);
    WindowPage(SELF_MAP, j);
  }

  lemma WindowPage(i: nat, j: nat)
    requires i < ENTRIES && j < ENTRIES
    ensures EntryAddress(i, j) / 0x1000 == SELF_MAP * 1024 + i
    ensures EntryAddress(i, j) % 0x1000 / 4 == j
    ensures (SELF_MAP * 1024 + i) / 1024 == SELF_MAP && (SELF_MAP * 1024 + i) % 1024 == i
  {
  }

  // ----- Ownership -----

  /** What a frame is used for once paging is on, apart from the identity map. */
  datatype Owner = Directory | PageTable(index: nat) | Page(page: nat)

  /** The sets the frame allocator keeps. */
  datatype Frames = Frames(usable: set<nat>, used: set<nat>) {
    ghost function Free(): set<nat> {
      usable - used
    }
  }

  /** Pages up to `top` are the identity map; pages above it are dynamic. */
  ghost predicate IdentityPage(mem: Memory, pd: nat, top: nat, p: nat)
    requires pd < FRAMES
  {
    p <= top && p < WINDOW_PAGE ==> Walk(mem, pd, p) == Some(p)
  }

  ghost predicate IdentityMapped(mem: Memory, pd: nat, top: nat)
    requires pd < FRAMES
  {
    forall p: nat :: IdentityPage(mem, pd, top, p)
  }

  ghost predicate OwnedTable(mem: Memory, pd: nat, owner: map<nat, Owner>, i: nat)
    requires pd < FRAMES
  {
    i < SELF_MAP && HasTable(mem, pd, i) ==>
      var f := TableFrame(mem, pd, i);
      f in owner && owner[f] == PageTable(i) && mem[pd][i] % 0x1000 == 3
  }

  ghost predicate TablesOwned(mem: Memory, pd: nat, owner: map<nat, Owner>)
    requires pd < FRAMES
  {
    forall i: nat :: OwnedTable(mem, pd, owner, i)
  }

  ghost predicate OwnedPage(mem: Memory, pd: nat, top: nat, usable: set<nat>, owner: map<nat, Owner>, p: nat)
    requires pd < FRAMES
  {
    top < p < WINDOW_PAGE && Walk(mem, pd, p).Some? ==>
      var f := Walk(mem, pd, p).value;
      f in owner && owner[f] == Page(p) && top < f && f in usable && Writable(mem, pd, p)
  }

  ghost predicate PagesOwned(mem: Memory, pd: nat, top: nat, usable: set<nat>, owner: map<nat, Owner>)
    requires pd < FRAMES
  {
    forall p: nat :: OwnedPage(mem, pd, top, usable, owner, p)
  }

  /**
   The state of the address space between operations. `owner` records the one
   owner of each frame in use, so two owners of one frame are impossible.
   */
  ghost predicate Sound(mem: Memory, pd: nat, top: nat, frames: Frames, owner: map<nat, Owner>) {
    && pd <= top < WINDOW_PAGE
    && SelfMapped(mem, pd)
    && IdentityMapped(mem, pd, top)
    && (forall f: nat :: f in frames.usable && f <= top ==> f in frames.used)
    && pd in owner && owner[pd] == Directory
    && TablesOwned(mem, pd, owner)
    && PagesOwned(mem, pd, top, frames.usable, owner)
    && owner.Keys <= frames.used
  }

  // ----- The edits -----

  /** Page `q` has the same entry, its frame and its access rights, or is unmapped in both. */
  ghost predicate SamePage(mem: Memory, mem': Memory, pd: nat, q: nat)
    requires pd < FRAMES
  {
    q < WINDOW_PAGE ==> Entry(mem', pd, q) == Entry(mem, pd, q)
  }

  /** Every translation outside the self-map window is the same. */
  ghost predicate SameTranslations(mem: Memory, mem': Memory, pd: nat)
    requires pd < FRAMES
  {
    forall q: nat :: SamePage(mem, mem', pd, q)
  }

  /** Translations agree except possibly on pages `p .. p + n - 1`. */
  ghost predicate SameOutside(mem: Memory, mem': Memory, pd: nat, p: nat, n: nat)
    requires pd < FRAMES
  {
    forall q: nat | !(p <= q < p + n) :: SamePage(mem, mem', pd, q)
  }

  /** Changing page `p + k` after `p .. p + k - 1`. */
  lemma ExtendOutside(mem0: Memory, mem1: Memory, mem2: Memory, pd: nat, p: nat, k: nat)
    requires pd < FRAMES && SameOutside(mem0, mem1, pd, p, k) && SameOutside(mem1, mem2, pd, p + k, 1)
    ensures SameOutside(mem0, mem2, pd, p, k + 1)
    ensures forall q: nat | p <= q < p + k :: SamePage(mem1, mem2, pd, q)
  {
    forall q: nat | !(p <= q < p + k + 1)
      ensures SamePage(mem0, mem2, pd, q)
    {
      assert SamePage(mem0, mem1, pd, q) && SamePage(mem1, mem2, pd, q);
    }
  }

  /** Tables already present keep their directory entries; new ones are present and writable. */
  ghost predicate KeepsTables(mem: Memory, mem': Memory, pd: nat)
    requires pd < FRAMES
  {
    && (forall i: nat | i < ENTRIES && HasTable(mem, pd, i) :: mem'[pd][i] == mem[pd][i])
    && (forall i: nat | i < ENTRIES && HasTable(mem', pd, i) :: mem'[pd][i] == mem[pd][i] || mem'[pd][i] % 0x1000 == 3)
  }

  ghost function TableFrames(mem: Memory, pd: nat): (s: set<nat>)
    requires pd < FRAMES
  {
    set i: nat | i < SELF_MAP && HasTable(mem, pd, i) :: TableFrame(mem, pd, i)
  }

  ghost function PageFramesIn(mem: Memory, pd: nat, p: nat, n: nat): (s: set<nat>)
    requires pd < FRAMES && p + n <= WINDOW_PAGE
  {
    set q: nat | p <= q < p + n && Walk(mem, pd, q).Some? :: Walk(mem, pd, q).value
  }

  /** Memory after a cleared table in frame `f` is hung into slot `i`. */
  ghost function WithTable(mem: Memory, pd: nat, i: nat, f: nat): Memory
    requires pd < FRAMES && i < ENTRIES && f < FRAMES
  {
    mem[pd := mem[pd][i := MappedEntry(f)]][f := Zeros(ENTRIES)]
  }

  /** Memory after the entry of page `p` is set to `e`. */
  ghost function WithEntry(mem: Memory, pd: nat, p: nat, e: Word): Memory
    requires pd < FRAMES && p < WINDOW_PAGE
  {
    mem[TableFrame(mem, pd, p / 1024) := mem[TableFrame(mem, pd, p / 1024)][p % 1024 := e]]
  }

  /** Hanging a fresh, cleared table into an empty slot changes no translation. */
  lemma WithTableTranslates(mem: Memory, pd: nat, owner: map<nat, Owner>, i: nat, f: nat)
    requires pd < FRAMES && f < FRAMES && f !in owner && pd in owner && owner[pd] == Directory
    requires TablesOwned(mem, pd, owner)
    requires i < SELF_MAP && !HasTable(mem, pd, i)
    ensures SameTranslations(mem, WithTable(mem, pd, i, f), pd)
  {
    var mem' := WithTable(mem, pd, i, f);
    forall p: nat
      ensures SamePage(mem, mem', pd, p)
    {
      if p < WINDOW_PAGE {
        WithTablePage(mem, pd, owner, i, f, p);
      }
    }
  }

  lemma WithTablePage(mem: Memory, pd: nat, owner: map<nat, Owner>, i: nat, f: nat, p: nat)
    requires pd < FRAMES && f < FRAMES && f !in owner && pd in owner && owner[pd] == Directory
    requires OwnedTable(mem, pd, owner, p / 1024)
    requires i < SELF_MAP && !HasTable(mem, pd, i) && p < WINDOW_PAGE
    ensures Entry(WithTable(mem, pd, i, f), pd, p) == Entry(mem, pd, p)
  {
    var mem' := WithTable(mem, pd, i, f);
    var k := p / 1024;
    if k == i {
      MappedEntryFields(f);
      assert mem'[pd][k] == MappedEntry(f) && mem'[f] == Zeros(ENTRIES);
    } else {
      assert mem'[pd][k] == mem[pd][k];
      if HasTable(mem, pd, k) {
        assert mem'[TableFrame(mem, pd, k)] == mem[TableFrame(mem, pd, k)];
      }
    }
  }

  lemma WithTableSound(mem: Memory, pd: nat, top: nat, frames: Frames, owner: map<nat, Owner>, i: nat, f: nat)
    requires Sound(mem, pd, top, frames, owner)
    requires i < SELF_MAP && !HasTable(mem, pd, i) && f in frames.Free() && f < FRAMES
    ensures var mem' := WithTable(mem, pd, i, f);
            && Sound(mem', pd, top, frames.(used := frames.used + {f}), owner[f := PageTable(i)])
            && SameTranslations(mem, mem', pd)
            && KeepsTables(mem, mem', pd)
            && HasTable(mem', pd, i)
            && frames.used + {f} == frames.used + TableFrames(mem', pd)
  {
    var mem', owner' := WithTable(mem, pd, i, f), owner[f := PageTable(i)];
    MappedEntryFields(f);
    WithTableTranslates(mem, pd, owner, i, f);
    forall k: nat
      ensures OwnedTable(mem', pd, owner', k)
    {
      assert OwnedTable(mem, pd, owner, k);
    }
    assert SamePage(mem, mem', pd, WINDOW_PAGE);
    KeptPages(mem, mem', pd, top, frames.usable, owner, owner', WINDOW_PAGE);
    assert OwnedPage(mem', pd, top, frames.usable, owner', WINDOW_PAGE);
    assert TableFrame(mem', pd, i) == f;
    TablesAreOwned(mem', pd, owner');
  }

  lemma TablesAreOwned(mem: Memory, pd: nat, owner: map<nat, Owner>)
    requires pd < FRAMES && TablesOwned(mem, pd, owner)
    ensures TableFrames(mem, pd) <= owner.Keys
  {
    forall f | f in TableFrames(mem, pd)
      ensures f in owner
    {
      var i: nat :| i < SELF_MAP && HasTable(mem, pd, i) && TableFrame(mem, pd, i) == f;
      assert OwnedTable(mem, pd, owner, i);
    }
  }

  /** Rewriting one page's entry changes that page's translation and nothing else. */
  lemma EntryWalk(mem: Memory, pd: nat, owner: map<nat, Owner>, p: nat, e: Word)
    requires pd < FRAMES && pd in owner && owner[pd] == Directory && TablesOwned(mem, pd, owner)
    requires p < WINDOW_PAGE && HasTable(mem, pd, p / 1024)
    ensures var mem' := WithEntry(mem, pd, p, e);
            && mem'[pd] == mem[pd]
            && SameOutside(mem, mem', pd, p, 1)
            && Entry(mem', pd, p) == if Present(e) then Some(e) else None
  {
    var mem' := WithEntry(mem, pd, p, e);
    assert OwnedTable(mem, pd, owner, p / 1024);
    forall q: nat | q != p
      ensures SamePage(mem, mem', pd, q)
    {
      assert OwnedTable(mem, pd, owner, q / 1024);
      assert q / 1024 == p / 1024 ==> q % 1024 != p % 1024;
    }
  }

  /** Owners, tables and identity pages survive an edit that spares them. */
  lemma KeptPages(mem: Memory, mem': Memory, pd: nat, top: nat, usable: set<nat>,
                  owner: map<nat, Owner>, owner': map<nat, Owner>, except: nat)
    requires pd < FRAMES && top < except
    requires IdentityMapped(mem, pd, top) && PagesOwned(mem, pd, top, usable, owner)
    requires SameOutside(mem, mem', pd, except, 1)
    requires forall f | f in owner && owner[f].Page? && owner[f] != Page(except) :: f in owner' && owner'[f] == owner[f]
    ensures IdentityMapped(mem', pd, top)
    ensures forall p: nat | p != except :: OwnedPage(mem', pd, top, usable, owner', p)
  {
    forall p: nat
      ensures IdentityPage(mem', pd, top, p)
      ensures p != except ==> OwnedPage(mem', pd, top, usable, owner', p)
    {
      assert IdentityPage(mem, pd, top, p);
      assert OwnedPage(mem, pd, top, usable, owner, p);
      assert p != except ==> SamePage(mem, mem', pd, p);
    }
  }

  lemma KeptTables(mem: Memory, mem': Memory, pd: nat, owner: map<nat, Owner>, owner': map<nat, Owner>)
    requires pd < FRAMES && TablesOwned(mem, pd, owner) && mem'[pd] == mem[pd]
    requires forall f | f in owner && owner[f].PageTable? :: f in owner' && owner'[f] == owner[f]
    ensures TablesOwned(mem', pd, owner')
  {
    forall i: nat
      ensures OwnedTable(mem', pd, owner', i)
    {
      assert OwnedTable(mem, pd, owner, i);
    }
  }

  /** Mapping an unmapped dynamic page to a free frame. */
  lemma MapSound(mem: Memory, pd: nat, top: nat, frames: Frames, owner: map<nat, Owner>, p: nat, f: nat)
    requires Sound(mem, pd, top, frames, owner)
    requires top < p < WINDOW_PAGE && HasTable(mem, pd, p / 1024) && Walk(mem, pd, p).None?
    requires f in frames.Free() && f < FRAMES
    ensures var mem' := WithEntry(mem, pd, p, MappedEntry(f));
            && Sound(mem', pd, top, frames.(used := frames.used + {f}), owner[f := Page(p)])
            && SameOutside(mem, mem', pd, p, 1)
            && mem'[pd] == mem[pd]
            && Walk(mem', pd, p) == Some(f) && Writable(mem', pd, p)
  {
    var mem', owner' := WithEntry(mem, pd, p, MappedEntry(f)), owner[f := Page(p)];
    MappedEntryFields(f);
    EntryWalk(mem, pd, owner, p, MappedEntry(f));
    KeptPages(mem, mem', pd, top, frames.usable, owner, owner', p);
    KeptTables(mem, mem', pd, owner, owner');
    assert OwnedPage(mem', pd, top, frames.usable, owner', p);
  }

  /** Clearing the entry of a mapped dynamic page. */
  lemma UnmapSound(mem: Memory, pd: nat, top: nat, frames: Frames, owner: map<nat, Owner>, p: nat)
    requires Sound(mem, pd, top, frames, owner)
    requires top < p < WINDOW_PAGE && Walk(mem, pd, p).Some?
    ensures var mem', f := WithEntry(mem, pd, p, 0), Walk(mem, pd, p).value;
            && Sound(mem', pd, top, frames.(used := frames.used - {f}), owner - {f})
            && SameOutside(mem, mem', pd, p, 1)
            && mem'[pd] == mem[pd]
            && Walk(mem', pd, p).None?
  {
    var mem', f := WithEntry(mem, pd, p, 0), Walk(mem, pd, p).value;
    assert OwnedPage(mem, pd, top, frames.usable, owner, p);
    EntryWalk(mem, pd, owner, p, 0);
    KeptPages(mem, mem', pd, top, frames.usable, owner, owner - {f}, p);
    KeptTables(mem, mem', pd, owner, owner - {f});
  }

  // ----- What soundness means -----

  lemma DynamicWritable(mem: Memory, pd: nat, top: nat, frames: Frames, owner: map<nat, Owner>, p: nat)
    requires Sound(mem, pd, top, frames, owner)
    requires top < p < WINDOW_PAGE && Walk(mem, pd, p).Some?
    ensures Writable(mem, pd, p) && mem[pd][p / 1024] % 0x1000 == 3
  {
    assert OwnedPage(mem, pd, top, frames.usable, owner, p);
    assert OwnedTable(mem, pd, owner, p / 1024);
  }

  /**
   No allocatable frame has two owners: a frame mapped by a dynamic page is
   mapped by that page only, is marked used, is usable, and is neither a page
   table, the directory nor a frame of the identity map.
   */
  lemma NoTwoOwners(mem: Memory, pd: nat, top: nat, frames: Frames, owner: map<nat, Owner>, p: nat, f: nat)
    requires Sound(mem, pd, top, frames, owner)
    requires top < p < WINDOW_PAGE && Walk(mem, pd, p) == Some(f)
    ensures f in frames.used && f in frames.usable
    ensures f != pd && f !in TableFrames(mem, pd)
    ensures forall q: nat | q < WINDOW_PAGE && q != p :: Walk(mem, pd, q) != Some(f)
  {
    assert OwnedPage(mem, pd, top, frames.usable, owner, p);
    forall q: nat | q < WINDOW_PAGE && q != p
      ensures Walk(mem, pd, q) != Some(f)
    {
      assert IdentityPage(mem, pd, top, q);
      assert OwnedPage(mem, pd, top, frames.usable, owner, q);
    }
    forall i: nat | i < SELF_MAP && HasTable(mem, pd, i)
      ensures TableFrame(mem, pd, i) != f
    {
      assert OwnedTable(mem, pd, owner, i);
    }
  }
}
