/** User address spaces of kernel/base/pg.c (32-bit paging) on top of the physical memory manager.

    Page directories, page tables and user pages are frames of physical memory; an address with the low
    twelve bits clear is given by its frame, and frame 0 stands for a null pointer.
 */
module Paging {
  import opened Machine
  import opened PhysicalMemory
  import opened PageTables
  import opened Ownership

  datatype Error = Ok | Unexpected | OutOfMemory | BadArgument

  datatype PageType = PageType(blocked: bool, readonly: bool, arctic: bool)

  datatype Command =
    | CreateSpace
    | MapRange(vaddr: nat, size: nat, type_: PageType)
    | UnmapRange(vaddr: nat, size: nat)
    | SetAside
    | Accept
    | GoBack
    | Sync
    | DeleteSpaces

  const TABLE_BITS: bv12 := 0x027

  function PageBits(t: PageType): (bits: bv12)
    ensures bits & USER != 0
  {
    var b0: bv12 := 0x027;
    var b1: bv12 := if t.blocked then b0 & 0xFFE else b0;
    var b2: bv12 := if t.readonly then b1 & 0xFFD else b1;
    if t.arctic then b2 | 0x800 else b2
  }

  /** What the bits of a mapped page say: present unless blocked, writable unless read-only, bit 11 for arctic pages, and
      always a page for users with the accessed bit. */
  predicate BitsGrant(bits: bv12, t: PageType)
  {
    && (bits & 0x001 != 0 <==> !t.blocked)
    && (bits & 0x002 != 0 <==> !t.readonly)
    && (bits & 0x800 != 0 <==> t.arctic)
    && bits & 0x004 != 0
    && bits & 0x7F8 == 0x020
  }

  lemma PageBitsGrant(t: PageType)
    ensures BitsGrant(PageBits(t), t)
  {
  }

  /** Only one word has these bits. */
  lemma BitsAreDetermined(bits: bv12, other: bv12, t: PageType)
    requires BitsGrant(bits, t) && BitsGrant(other, t)
    ensures bits == other
  {
  }

  /** The processor lets a task read the page unless it is blocked, and write to it unless it is blocked or read-only. */
  ghost predicate Granted(m: Memory, d: nat, v: nat, t: PageType)
    requires Pages(m)
  {
    && BitsGrant(Lookup(m, d, v).bits, t)
    && (CanRead(m, d, v) <==> !t.blocked)
    && (CanWrite(m, d, v) <==> !t.blocked && !t.readonly)
  }

  lemma GrantedBits(s: State, taken: set<nat>, inFlight: set<nat>, charge: int, d: nat, v: nat, t: PageType)
    requires Sound(s, taken, inFlight, charge) && d in s.dirs && UserPage(v)
    requires Pages(s.memory) && Lookup(s.memory, d, v).bits == PageBits(t)
    ensures Granted(s.memory, d, v, t)
  {
    hide Sound, Lookup, CanRead, CanWrite, PageBits;
    PageBitsGrant(t);
    AccessIsOfPage(s, taken, inFlight, charge, d, v);
  }

  /** What pg_free_pte leaves of an entry: nothing, or with `sync` a marked entry without its mark. */
  function Kept(e: Entry, sync: bool): Entry
  {
    if sync && e.bits & ARCTIC != 0 then Entry(e.frame, e.bits ^ ARCTIC) else ZERO
  }

  /** A page that was mapped as arctic stays when arctic pages are synchronized, from then on as one that is not; other
      pages go, and so does every page that is not synchronized. */
  lemma ArcticStays(e: Entry, t: PageType)
    requires BitsGrant(e.bits, t)
    ensures t.arctic ==> Kept(e, true).frame == e.frame && BitsGrant(Kept(e, true).bits, t.(arctic := false))
    ensures !t.arctic ==> Kept(e, true) == ZERO
    ensures Kept(e, false) == ZERO
  {
  }

  /** No user page is mapped under directory d. */
  ghost predicate MapsNothing(m: Memory, d: nat)
  {
    Pages(m) && forall v | UserPage(v) :: Lookup(m, d, v) == ZERO
  }

  lemma NothingTaken(s: State, taken: set<nat>, charge: int)
    requires Sound(s, taken, {}, charge) && s.dirs == {}
    ensures taken == s.kernel && charge == 0 && s.owner == map[]
  {
    NothingOwned(s.memory, s.owner);
    assert Leaves(s.owner) == {};
  }

  /** The pages from `from` to `end` of directory d are not mapped; all other pages are as before. */
  ghost predicate Unmapped(m: Memory, m2: Memory, dirs: set<nat>, d: nat, from: nat, end: nat)
    requires Pages(m) && Pages(m2)
  {
    forall c, w | c in dirs && UserPage(w) ::
      Lookup(m2, c, w) == if c == d && from <= w < end then ZERO else Lookup(m, c, w)
  }

  lemma NothingUnmapped(s: State, d: nat, n: nat)
    requires Pages(s.memory)
    ensures Unmapped(s.memory, s.memory, s.dirs, d, n, n)
  {
  }

  lemma UserBitOfZero()
    ensures ZERO.bits & USER == 0
  {
  }

  lemma OneAlreadyUnmapped(before: State, s: State, d: nat, from: nat, n: nat)
    requires Pages(before.memory) && Pages(s.memory) && from <= n && Lookup(s.memory, d, n) == ZERO
    requires Unmapped(before.memory, s.memory, s.dirs, d, from, n)
    ensures Unmapped(before.memory, s.memory, s.dirs, d, from, n + 1)
  {
    hide Lookup;
  }

  lemma OneMoreUnmapped(before: State, s: State, s2: State, d: nat, from: nat, n: nat)
    requires Pages(before.memory) && Pages(s.memory) && Pages(s2.memory) && s.dirs == s2.dirs && from <= n
    requires Unmapped(before.memory, s.memory, s.dirs, d, from, n)
    requires SameBut(s.memory, s2.memory, s.dirs, d, n, ZERO)
    ensures Unmapped(before.memory, s2.memory, s2.dirs, d, from, n + 1)
  {
    hide Lookup;
  }

  const SPACE: nat := 0x1_0000_0000

  /** A range of addresses that a task may map. */
  predicate UserRange(vaddr: nat, size: nat)
  {
    size > 0 && vaddr >= 0x1000_0000 && vaddr + size <= SPACE
  }

  /** The first page behind the range. */
  function EndPage(vaddr: nat, size: nat): nat
  {
    (vaddr + size + 0xFFF) / PAGE
  }

  /** A page lies in front of it exactly if the range reaches into the page or beyond. */
  lemma EndPageIs(vaddr: nat, size: nat, n: nat)
    ensures n < EndPage(vaddr, size) <==> n * PAGE < vaddr + size
  {
  }

  lemma PagesBelowEnd(vaddr: nat, size: nat, n: nat)
    requires UserRange(vaddr, size) && vaddr / PAGE <= n <= EndPage(vaddr, size)
    requires n * PAGE % SPACE != EndPage(vaddr, size) * PAGE % SPACE
    ensures n < EndPage(vaddr, size) && UserPage(n) && n * PAGE % SPACE / PAGE == n
    ensures (n * PAGE % SPACE + PAGE) % SPACE == (n + 1) * PAGE % SPACE
  {
  }

  lemma EndPageWraps(vaddr: nat, size: nat)
    requires UserRange(vaddr, size)
    ensures ((vaddr + size) % SPACE + 0xFFF) % SPACE / PAGE * PAGE == EndPage(vaddr, size) * PAGE % SPACE
    ensures UserPage(vaddr / PAGE) && vaddr / PAGE < EndPage(vaddr, size) <= ENTRIES * ENTRIES
  {
  }

  /** The wrapped addresses of different pages of the range differ; the one before the end is a user page. */
  lemma PagesDiffer(vaddr: nat, n: nat)
    requires UserPage(vaddr / PAGE) && vaddr / PAGE <= n <= ENTRIES * ENTRIES && n * PAGE % SPACE != vaddr / PAGE * PAGE
    ensures n > vaddr / PAGE && UserPage(n - 1) && (n * PAGE % SPACE + SPACE - PAGE) % SPACE == (n - 1) * PAGE % SPACE
    ensures (n - 1) * PAGE % SPACE / PAGE == n - 1
  {
  }

  /** The pages from `from` to `end` of directory d are mapped with these bits; all other pages are as before. */
  ghost predicate Mapped(m: Memory, m2: Memory, dirs: set<nat>, d: nat, from: nat, end: nat, bits: bv12)
    requires Pages(m) && Pages(m2)
  {
    forall c, w | c in dirs && UserPage(w) ::
      if c == d && from <= w < end then Lookup(m2, c, w).frame != 0 && Lookup(m2, c, w).bits == bits
      else Lookup(m2, c, w) == Lookup(m, c, w)
  }

  lemma NothingMapped(s: State, d: nat, end: nat, bits: bv12)
    requires Pages(s.memory)
    ensures Mapped(s.memory, s.memory, s.dirs, d, end, end, bits)
  {
  }

  lemma MappedIsGranted(before: State, s: State, taken: set<nat>, inFlight: set<nat>, charge: int, d: nat, from: nat,
                        end: nat, t: PageType)
    requires Sound(s, taken, inFlight, charge) && d in s.dirs && Pages(before.memory) && Pages(s.memory)
    requires Mapped(before.memory, s.memory, s.dirs, d, from, end, PageBits(t))
    ensures forall w | UserPage(w) && from <= w < end :: Granted(s.memory, d, w, t)
  {
    hide Sound, Lookup, Granted, PageBits;
    forall w | UserPage(w) && from <= w < end
      ensures Granted(s.memory, d, w, t)
    {
      GrantedBits(s, taken, inFlight, charge, d, w, t);
    }
  }

  lemma SameMapped(before: State, s: State, s2: State, d: nat, from: nat, end: nat, bits: bv12)
    requires Pages(before.memory) && Pages(s.memory) && Pages(s2.memory) && s.dirs == s2.dirs
    requires Mapped(before.memory, s.memory, s.dirs, d, from, end, bits) && SaysSame(s.memory, s2.memory, s.dirs)
    ensures Mapped(before.memory, s2.memory, s2.dirs, d, from, end, bits)
  {
    hide Lookup;
  }

  lemma MoreMapped(before: State, s: State, s2: State, d: nat, from: nat, end: nat, e: Entry)
    requires Pages(before.memory) && Pages(s.memory) && Pages(s2.memory) && s.dirs == s2.dirs && e.frame != 0
    requires 0 < from <= end && Mapped(before.memory, s.memory, s.dirs, d, from, end, e.bits)
    requires SameBut(s.memory, s2.memory, s.dirs, d, from - 1, e)
    ensures Mapped(before.memory, s2.memory, s2.dirs, d, from - 1, end, e.bits)
  {
    hide Lookup;
  }

  lemma SameButHere(m: Memory, m2: Memory, dirs: set<nat>, d: nat, v: nat, e: Entry)
    requires Pages(m) && Pages(m2) && SameBut(m, m2, dirs, d, v, e) && d in dirs && UserPage(v)
    ensures Lookup(m2, d, v) == e
  {
    hide Lookup;
  }

  lemma SayChain(before: State, s: State, s2: State, d: nat, v: nat, e: Entry)
    requires Pages(before.memory) && Pages(s.memory) && Pages(s2.memory) && s.dirs == s2.dirs
    requires SaysSame(before.memory, s.memory, s.dirs) && SameBut(s.memory, s2.memory, s.dirs, d, v, e)
    ensures SameBut(before.memory, s2.memory, s2.dirs, d, v, e)
  {
    hide Lookup;
  }

  /** The pages under the entries below n of directory d have been dealt with; all other pages are as before. */
  ghost predicate BelowKept(m: Memory, m2: Memory, dirs: set<nat>, d: nat, n: nat, sync: bool)
    requires Pages(m) && Pages(m2)
  {
    forall c, w | c in dirs && UserPage(w) ::
      Lookup(m2, c, w) == if c == d && w / ENTRIES < n then Kept(Lookup(m, c, w), sync) else Lookup(m, c, w)
  }

  /** Directories and tables keep their owners' entries. */
  ghost predicate NonLeavesKept(before: Owners, after: Owners)
  {
    forall f | f in before && !before[f].Leaf? :: f in after && after[f] == before[f]
  }

  lemma BelowStart(s: State, d: nat, sync: bool)
    requires Pages(s.memory)
    ensures KernelKept(s, s) && NonLeavesKept(s.owner, s.owner)
    ensures BelowKept(s.memory, s.memory, s.dirs, d, FIRST_USER, sync)
  {
  }

  lemma BelowSkip(before: State, s: State, d: nat, i: nat, sync: bool)
    requires Pages(before.memory) && Pages(s.memory) && BelowKept(before.memory, s.memory, s.dirs, d, i, sync)
    requires d in s.dirs && forall v | UserPage(v) && v / ENTRIES == i :: Lookup(s.memory, d, v) == ZERO
    ensures BelowKept(before.memory, s.memory, s.dirs, d, i + 1, sync)
  {
    hide Lookup;
  }

  /** Of the pages under entry i of directory d the first n have been dealt with; all other pages are as before. */
  ghost predicate TableKept(m: Memory, m2: Memory, dirs: set<nat>, d: nat, i: nat, n: nat, sync: bool)
    requires Pages(m) && Pages(m2)
  {
    forall c, w | c in dirs && UserPage(w) ::
      Lookup(m2, c, w) ==
      if c == d && w / ENTRIES == i && w % ENTRIES < n then Kept(Lookup(m, c, w), sync) else Lookup(m, c, w)
  }

  lemma BelowNext(before: State, s: State, s2: State, d: nat, i: nat, sync: bool)
    requires Pages(before.memory) && Pages(s.memory) && Pages(s2.memory) && s.dirs == s2.dirs
    requires BelowKept(before.memory, s.memory, s.dirs, d, i, sync)
    requires TableKept(s.memory, s2.memory, s.dirs, d, i, ENTRIES, sync)
    ensures BelowKept(before.memory, s2.memory, s2.dirs, d, i + 1, sync)
  {
    hide Lookup;
  }

  lemma BelowSame(before: State, s: State, s2: State, d: nat, n: nat, sync: bool)
    requires Pages(before.memory) && Pages(s.memory) && Pages(s2.memory) && s.dirs == s2.dirs
    requires BelowKept(before.memory, s.memory, s.dirs, d, n, sync) && SaysSame(s.memory, s2.memory, s.dirs)
    ensures BelowKept(before.memory, s2.memory, s2.dirs, d, n, sync)
  {
    hide Lookup;
  }

  lemma AllBelow(before: State, m: Memory, dirs: set<nat>, d: nat, sync: bool)
    requires Pages(before.memory) && Pages(m) && BelowKept(before.memory, m, dirs, d, ENTRIES, sync)
    ensures forall c, w | c in dirs && UserPage(w) ::
              Lookup(m, c, w) == if c == d then Kept(Lookup(before.memory, c, w), sync) else Lookup(before.memory, c, w)
  {
    hide Lookup;
  }

  lemma OthersSame(before: State, s: State, s2: State, d: nat)
    requires Pages(before.memory) && Pages(s.memory) && Pages(s2.memory) && s2.dirs == s.dirs - {d}
    requires SaysSame(s.memory, s2.memory, s.dirs - {d})
    requires forall c, w | c in s.dirs && UserPage(w) && c != d :: Lookup(s.memory, c, w) == Lookup(before.memory, c, w)
    ensures forall c, w | c in s2.dirs && UserPage(w) :: Lookup(s2.memory, c, w) == Lookup(before.memory, c, w)
  {
    hide Lookup;
  }

  lemma DirectoryIsNoTable(s: State, taken: set<nat>, charge: int, d: nat, t: nat)
    requires Sound(s, taken, {}, charge) && d in s.dirs && t in s.owner && s.owner[t].Table?
    ensures d != t
  {
  }

  lemma Chain(before: State, s: State, s2: State, t: nat)
    requires KernelKept(before, s) && KernelKept(s, s2) && NonLeavesKept(before.owner, s.owner)
    requires s2.owner == s.owner || NonLeavesKept(s.owner, s2.owner)
    ensures KernelKept(before, s2) && NonLeavesKept(before.owner, s2.owner)
    ensures t in s.owner && !s.owner[t].Leaf? ==> t in s2.owner && s2.owner[t] == s.owner[t]
  {
  }

  lemma KernelChain(before: State, s: State, s2: State)
    requires KernelKept(before, s) && KernelKept(s, s2)
    ensures KernelKept(before, s2)
  {
  }

  lemma KeptStart(s: State, d: nat, i: nat, sync: bool)
    requires Pages(s.memory)
    ensures TableKept(s.memory, s.memory, s.dirs, d, i, 0, sync)
    ensures KernelKept(s, s) && NonLeavesKept(s.owner, s.owner)
  {
  }

  lemma KeptSkip(before: State, s: State, t: nat, j: nat, sync: bool)
    requires Pages(before.memory) && Pages(s.memory) && t in s.owner && s.owner[t].Table? && j < ENTRIES
    requires Lookup(s.memory, s.owner[t].dir, s.owner[t].i * ENTRIES + j) == ZERO
    requires TableKept(before.memory, s.memory, s.dirs, s.owner[t].dir, s.owner[t].i, j, sync)
    ensures TableKept(before.memory, s.memory, s.dirs, s.owner[t].dir, s.owner[t].i, j + 1, sync)
  {
    hide Lookup;
    var d, i := s.owner[t].dir, s.owner[t].i;
    forall c, w | c in s.dirs && UserPage(w)
      ensures Lookup(s.memory, c, w) ==
              if c == d && w / ENTRIES == i && w % ENTRIES < j + 1 then Kept(Lookup(before.memory, c, w), sync)
              else Lookup(before.memory, c, w)
    {
      if c == d && w / ENTRIES == i && w % ENTRIES == j {
        assert w == i * ENTRIES + j;
      }
    }
  }

  lemma KeptNext(before: State, s: State, s2: State, t: nat, j: nat, sync: bool)
    requires Pages(before.memory) && Pages(s.memory) && Pages(s2.memory) && s.dirs == s2.dirs
    requires t in s.owner && s.owner[t].Table? && j < ENTRIES && t < |s.memory|
    requires t in s2.owner && s2.owner[t] == s.owner[t]
    requires Lookup(s.memory, s.owner[t].dir, s.owner[t].i * ENTRIES + j) == s.memory[t][j]
    requires SameBut(s.memory, s2.memory, s.dirs, s.owner[t].dir, s.owner[t].i * ENTRIES + j, Kept(s.memory[t][j], sync))
    requires TableKept(before.memory, s.memory, s.dirs, s.owner[t].dir, s.owner[t].i, j, sync)
    ensures TableKept(before.memory, s2.memory, s2.dirs, s.owner[t].dir, s.owner[t].i, j + 1, sync)
  {
    hide Lookup;
    var d, i := s.owner[t].dir, s.owner[t].i;
    forall c, w | c in s.dirs && UserPage(w)
      ensures Lookup(s2.memory, c, w) ==
              if c == d && w / ENTRIES == i && w % ENTRIES < j + 1 then Kept(Lookup(before.memory, c, w), sync)
              else Lookup(before.memory, c, w)
    {
      if c == d && w / ENTRIES == i && w % ENTRIES == j {
        assert w == i * ENTRIES + j;
      }
    }
  }

  lemma MarkIsNoUserBit(bits: bv12)
    ensures bits & USER != 0 ==> (bits ^ ARCTIC) & USER != 0
  {
  }

  lemma WordFrame(e: Entry)
    ensures Word(e) / PAGE == e.frame
  {
  }

  lemma OneFrame(f: nat)
    ensures Range(f, CountOf(0)) == {f}
  {
    RangeIs(f, 1);
  }

  /** No page that a process has is written to. */
  ghost predicate LeafPagesKept(s: State, m2: Memory)
  {
    |m2| == |s.memory| && forall g | g in s.owner && s.owner[g].Leaf? && g < |s.memory| :: m2[g] == s.memory[g]
  }

  ghost predicate SameLeaves(before: Owners, after: Owners)
  {
    forall g | g in before && before[g].Leaf? :: g in after && after[g] == before[g]
  }

  lemma FreeIsNobodys(s: State, taken: set<nat>, inFlight: set<nat>, charge: int, d: nat, t: nat)
    requires Sound(s, taken, inFlight, charge) && d in s.dirs && t !in taken
    ensures t !in s.owner && t !in inFlight && d in s.owner && !s.owner[d].Leaf? && d !in inFlight && d != t
  {
    hide Leaves, SharesKernel;
    DirectoryIsOwned(s, taken, inFlight, charge, d);
  }

  /** The mapped pages keep their contents. */
  ghost predicate ContentsKept(m: Memory, m2: Memory, dirs: set<nat>)
    requires Pages(m)
  {
    forall c, w | c in dirs && UserPage(w) && Lookup(m, c, w) != ZERO ::
      var g := Lookup(m, c, w).frame; g < |m| && g < |m2| && m2[g] == m[g]
  }

  lemma LeavesAreMapped(s: State, taken: set<nat>, inFlight: set<nat>, charge: int, m2: Memory)
    requires Sound(s, taken, inFlight, charge) && LeafPagesKept(s, m2)
    ensures Pages(s.memory) && ContentsKept(s.memory, m2, s.dirs)
  {
    hide Sound, Lookup;
    SoundPages(s, taken, inFlight, charge);
    forall c, w | c in s.dirs && UserPage(w) && Lookup(s.memory, c, w) != ZERO
      ensures var g := Lookup(s.memory, c, w).frame; g < |s.memory| && g < |m2| && m2[g] == s.memory[g]
    {
      MappedLeaf(s, taken, inFlight, charge, c, w);
      OwnedFrame(s, taken, inFlight, charge, Lookup(s.memory, c, w).frame);
    }
  }

  /** The pages from `from` to `end` of directory d are zero pages; those mapped elsewhere have the contents they had. */
  ghost predicate Cleared(m: Memory, m2: Memory, dirs: set<nat>, d: nat, from: nat, end: nat)
    requires Pages(m2)
  {
    forall c, w | c in dirs && UserPage(w) && Lookup(m2, c, w) != ZERO ::
      var g := Lookup(m2, c, w).frame;
      g < |m2| && if c == d && from <= w < end then m2[g] == ZeroPage() else g < |m| && m2[g] == m[g]
  }

  lemma NothingCleared(s: State, taken: set<nat>, charge: int, d: nat, end: nat)
    requires Sound(s, taken, {}, charge)
    ensures Pages(s.memory) && Cleared(s.memory, s.memory, s.dirs, d, end, end)
  {
    hide Sound, Lookup;
    LeavesAreMapped(s, taken, {}, charge, s.memory);
  }

  lemma SameCleared(before: State, s: State, s2: State, d: nat, from: nat, end: nat)
    requires Pages(before.memory) && Pages(s.memory) && Pages(s2.memory) && s.dirs == s2.dirs
    requires Cleared(before.memory, s.memory, s.dirs, d, from, end)
    requires SaysSame(s.memory, s2.memory, s.dirs) && ContentsKept(s.memory, s2.memory, s.dirs)
    ensures Cleared(before.memory, s2.memory, s2.dirs, d, from, end)
  {
    hide Lookup;
  }

  lemma MoreCleared(before: State, s: State, s2: State, d: nat, from: nat, end: nat, e: Entry)
    requires Pages(before.memory) && Pages(s.memory) && Pages(s2.memory) && s.dirs == s2.dirs
    requires 0 < from <= end && Cleared(before.memory, s.memory, s.dirs, d, from, end)
    requires SameBut(s.memory, s2.memory, s.dirs, d, from - 1, e) && ContentsKept(s.memory, s2.memory, s.dirs)
    requires e.frame < |s2.memory| && s2.memory[e.frame] == ZeroPage()
    ensures Cleared(before.memory, s2.memory, s2.dirs, d, from - 1, end)
  {
    hide Lookup;
  }

  class AddressSpaces {
    const mm: Mm
    var memory: Memory

    const kernelDirectory: nat          // pg_kernel
    ghost const kernelFrames: set<nat>  // every frame that is taken for other purposes

    // The fields of the current task, and the CPU's own page directory register.
    var pgCr3: nat
    var pgAltCr3: nat
    var cr3: nat
    var cpuCr3: nat
    var pgState: nat
    var userMemory: int

    ghost var owner: Owners
    ghost var dirs: set<nat>

    ghost function Now(): State
      reads this
    {
      State(memory, owner, dirs, kernelFrames, kernelDirectory)
    }

    ghost predicate Inv(inFlight: set<nat>)
      reads this, mm, mm.bitmap
    {
      && mm.Valid() && mm.ready && |memory| == mm.Frames()
      && Sound(Now(), mm.Taken(), inFlight, userMemory)
    }

    ghost predicate Valid()
      reads this, mm, mm.bitmap
    {
      && Inv({})
      && dirs == {pgCr3, pgAltCr3} - {0}
      && (pgAltCr3 != 0 ==> pgCr3 != 0 && pgCr3 != pgAltCr3)
      && cpuCr3 == cr3 && (cr3 == kernelDirectory || (cr3 == pgCr3 && pgCr3 != 0))
    }

    constructor (manager: Mm, contents: Memory, directory: nat)
      requires manager.Valid() && manager.ready
      requires Pages(contents) && |contents| == manager.Frames()
      requires 0 in manager.Taken() && directory in manager.Taken() && 0 < directory < |contents|
      ensures Valid() && mm == manager && memory == contents && kernelDirectory == directory
      ensures kernelFrames == manager.Taken() && pgCr3 == pgAltCr3 == 0
    {
      mm, memory, kernelDirectory := manager, contents, directory;
      kernelFrames := manager.Taken();
      pgCr3, pgAltCr3, cr3, cpuCr3, pgState, userMemory := 0, 0, directory, directory, 0, 0;
      owner, dirs := map[], {};
      assert Leaves(map[]) == {};
    }

    // ----- Directories

    /** No frame is free that a directory could be made of. */
    ghost predicate NoDirectoryFrame()
      reads mm.bitmap
    {
      Full(mm.Taken(), TypeLimit(Addr32, mm.Frames()))
    }

    /** No frame is free, but for at most one. */
    ghost predicate Exhausted()
      reads mm.bitmap
    {
      exists f :: Full(mm.Taken() + {f}, mm.Frames())
    }

    /** pg_create_cr3: a directory that maps no user page.  It fails exactly for want of a frame. */
    method CreateCr3() returns (d: nat)
      requires Inv({})
      modifies this`memory, this`owner, this`dirs, mm`used, mm.bitmap
      ensures Inv({}) && KernelKept(old(Now()), Now())
      ensures d == 0 ==> memory == old(memory) && dirs == old(dirs)
      ensures d == 0 <==> old(NoDirectoryFrame())
      ensures d != 0 ==>
                && d !in old(dirs) && dirs == old(dirs) + {d} && Pages(memory) && Pages(old(memory))
                && SaysSame(old(memory), memory, old(dirs))
                && forall v | UserPage(v) :: Lookup(memory, d, v) == ZERO
    {
      hide Sound, Mm.Taken, Mm.Valid, Lookup, SaysSame, Range;
      var page := mm.AllocPages(Addr32, 0);
      if page == 0 {
        NoBlockIsFull(mm.Taken(), TypeLimit(Addr32, mm.Frames()));
        return 0;
      }
      d := page / PAGE;
      OneFrame(d);
      assert d !in old(mm.Taken());
      ghost var before := Now();
      SoundPages(before, old(mm.Taken()), {}, userMemory);
      StepCreate(before, old(mm.Taken()), userMemory, d);
      NewDirectorySays(before, old(mm.Taken()), userMemory, d);
      var pde := ZeroPage();
      pde := memory[kernelDirectory][..FIRST_USER] + pde[FIRST_USER..];
      memory := memory[d := pde];
      owner := owner[d := Directory];
      dirs := dirs + {d};
    }

    /** A page goes from its table entry back to the free ones. */
    method ClearEntry(t: nat, j: nat)
      requires Inv({}) && t in owner && owner[t].Table? && j < ENTRIES
      requires Pages(memory) && t < |memory| && memory[t][j] != ZERO
      modifies this`memory, this`owner, this`userMemory, mm`used, mm.bitmap
      ensures Inv({}) && KernelKept(old(Now()), Now()) && NonLeavesKept(old(owner), owner)
      ensures |memory| == |old(memory)| && memory == old(memory)[t := old(memory)[t][j := ZERO]]
      ensures Pages(memory) && SameBut(old(memory), memory, dirs, owner[t].dir, owner[t].i * ENTRIES + j, ZERO)
    {
      hide Sound, Mm.Taken, Mm.Valid, Lookup, SameBut;
      var e := memory[t][j];
      StepUnlink(Now(), mm.Taken(), {}, userMemory, t, j);
      OtherLeaves(owner, e.frame);
      memory := memory[t := memory[t][j := ZERO]];
      owner := owner - {e.frame};
      WordFrame(e);
      mm.FreePage(Word(e));
      userMemory := userMemory - PAGE;
    }

    /** pg_free_pte: the pages of one table are freed; with `sync` the marked ones stay, without their mark.
        The result is the number of pages that stay. */
    method FreePte(t: nat, sync: bool) returns (r: nat)
      requires Inv({}) && t in owner && owner[t].Table?
      modifies this`memory, this`owner, this`userMemory, mm`used, mm.bitmap
      ensures Inv({}) && KernelKept(old(Now()), Now()) && NonLeavesKept(old(owner), owner)
      ensures Pages(memory) && Pages(old(memory)) && |memory| == |old(memory)|
      ensures forall f | 0 <= f < |memory| && f != t :: memory[f] == old(memory[f])
      ensures t < |memory| && (r == 0 ==> memory[t] == ZeroPage()) && (!sync ==> r == 0)
      ensures TableKept(old(memory), memory, dirs, owner[t].dir, owner[t].i, ENTRIES, sync)
    {
      hide Sound, Mm.Taken, Mm.Valid, Lookup, SameBut, TableKept, KernelKept, NonLeavesKept;
      r := 0;
      ghost var before := Now();
      SoundPages(before, mm.Taken(), {}, userMemory);
      OwnedFrame(before, mm.Taken(), {}, userMemory, t);
      KeptStart(before, owner[t].dir, owner[t].i, sync);
      for i := 0 to ENTRIES
        invariant Inv({}) && KernelKept(before, Now()) && NonLeavesKept(before.owner, owner)
        invariant t in owner && owner[t] == before.owner[t]
        invariant Pages(memory) && |memory| == |before.memory| && dirs == before.dirs
        invariant forall f | 0 <= f < |memory| && f != t :: memory[f] == before.memory[f]
        invariant forall j | i <= j < ENTRIES :: memory[t][j] == before.memory[t][j]
        invariant r == 0 ==> forall j | 0 <= j < i :: memory[t][j] == ZERO
        invariant !sync ==> r == 0
        invariant TableKept(before.memory, memory, dirs, owner[t].dir, owner[t].i, i, sync)
      {
        ghost var s := Now();
        LookupAt(s, mm.Taken(), {}, userMemory, t, i);
        var e := memory[t][i];
        if e == ZERO {
          KeptSkip(before, s, t, i, sync);
          continue;
        }
        if sync && e.bits & ARCTIC != 0 {
          MarkIsNoUserBit(e.bits);
          StepRewrite(s, mm.Taken(), {}, userMemory, t, i, e.bits ^ ARCTIC);
          memory := memory[t := memory[t][i := Entry(e.frame, e.bits ^ ARCTIC)]];
          r := r + 1;
        } else {
          ClearEntry(t, i);
        }
        Chain(before, s, Now(), t);
        KeptNext(before, s, Now(), t, i, sync);
      }
    }

    /** pg_delete_cr3: everything below directory d is freed and then, unless `sync`, the directory itself.
        With `sync` the marked pages stay mapped, without their mark.  Other directories keep their pages. */
    method DeleteCr3(d: nat, sync: bool)
      requires Inv({}) && d in dirs
      modifies this`memory, this`owner, this`dirs, this`userMemory, mm`used, mm.bitmap
      ensures Inv({}) && KernelKept(old(Now()), Now()) && Pages(memory) && Pages(old(memory))
      ensures dirs == if sync then old(dirs) else old(dirs) - {d}
      ensures forall c, w | c in dirs && UserPage(w) ::
                Lookup(memory, c, w) ==
                if c == d then Kept(old(Lookup(memory, c, w)), sync) else old(Lookup(memory, c, w))
    {
      hide Sound, Mm.Taken, Mm.Valid, Lookup, SaysSame, TableKept, KernelKept, BelowKept, Kept;
      ghost var before := Now();
      SoundPages(before, mm.Taken(), {}, userMemory);
      BelowStart(before, d, sync);
      for i := FIRST_USER to ENTRIES
        invariant Inv({}) && KernelKept(before, Now()) && dirs == before.dirs && Pages(memory)
        invariant BelowKept(before.memory, memory, dirs, d, i, sync)
        invariant d < |memory| && (!sync ==> forall k | FIRST_USER <= k < i :: memory[d][k] == ZERO)
      {
        ghost var s := Now();
        TableAt(s, mm.Taken(), {}, userMemory, d, i);
        var e := memory[d][i];
        if e.bits & PRESENT == 0 {
          LookupWithoutTable(s, mm.Taken(), {}, userMemory, d, i);
          BelowSkip(before, s, d, i, sync);
          continue;
        }
        if e.bits & LARGE != 0 {
          continue;
        }
        var t := e.frame;
        DirectoryIsNoTable(s, mm.Taken(), userMemory, d, t);
        var r := FreePte(t, sync);
        ghost var s1 := Now();
        KernelChain(before, s, s1);
        BelowNext(before, s, s1, d, i, sync);
        if r != 0 {
          continue;
        }
        StepDropTable(s1, mm.Taken(), userMemory, d, i);
        memory := memory[d := memory[d][i := ZERO]];
        owner := owner - {t};
        mm.FreePage(t * PAGE);
        KernelChain(before, s1, Now());
        BelowSame(before, s1, Now(), d, i + 1, sync);
      }
      AllBelow(before, memory, dirs, d, sync);
      if sync {
        return;
      }
      ghost var s := Now();
      StepDropDirectory(s, mm.Taken(), userMemory, d, ZeroPage());
      var pde := ZeroPage();
      memory := memory[d := pde];
      owner := owner - {d};
      dirs := dirs - {d};
      mm.FreePage(d * PAGE);
      KernelChain(before, s, Now());
      OthersSame(before, s, Now(), d);
    }

    // ----- Pages

    /** There is no table for virtual page v. */
    ghost predicate WantsTable(d: nat, v: nat)
      reads this`memory
    {
      d < |memory| && v / ENTRIES < |memory[d]| && memory[d][v / ENTRIES].bits & PRESENT == 0
    }

    /** The table for virtual page v, made if there is none; 0 exactly if there is none and no frame for it. */
    method TableFor(d: nat, v: nat, ghost f: nat) returns (t: nat)
      requires Inv({f}) && d in dirs && UserPage(v)
      modifies this`memory, this`owner, mm`used, mm.bitmap
      ensures Inv({f}) && KernelKept(old(Now()), Now()) && Pages(memory) && Pages(old(memory))
      ensures SaysSame(old(memory), memory, dirs)
      ensures t == 0 <==> old(WantsTable(d, v) && Full(mm.Taken(), mm.Frames()))
      ensures t == 0 ==> memory == old(memory) && owner == old(owner) && mm.Taken() == old(mm.Taken())
      ensures LeafPagesKept(old(Now()), memory) && SameLeaves(old(owner), owner)
      ensures f < |memory| ==> memory[f] == old(memory)[f]
      ensures t != 0 ==> t in owner && owner[t] == Table(d, v / ENTRIES) && t < |memory|
    {
      hide Sound, Mm.Taken, Mm.Valid, Lookup, KernelKept;
      t := 0;
      ghost var s := Now();
      SoundPages(s, mm.Taken(), {f}, userMemory);
      KeptStart(s, 0, 0, false);
      var offset := v / ENTRIES;
      assert UserEntry(offset);
      TableAt(s, mm.Taken(), {f}, userMemory, d, offset);
      var e := memory[d][offset];
      if e.bits & PRESENT == 0 {
        var page := mm.AllocPage();
        if page == 0 {
          return 0;
        }
        t := page / PAGE;
        StepTable(s, old(mm.Taken()), {f}, userMemory, d, offset, t, TABLE_BITS);
        var zero := ZeroPage();
        memory := memory[t := zero];
        FreeIsNobodys(s, old(mm.Taken()), {f}, userMemory, d, t);
        memory := memory[d := memory[d][offset := Entry(t, TABLE_BITS)]];
        owner := owner[t := Table(d, offset)];
      } else if e.bits & LARGE != 0 {
        assert false;
      } else {
        t := e.frame;
      }
    }

    /** pg_map_virtual: the page in flight becomes the one mapped at virtual page v; what was mapped there is
        freed and no longer charged.  It fails exactly for want of a frame for a page table. */
    method MapVirtual(d: nat, v: nat, f: nat, type_: PageType) returns (ok: bool)
      requires Inv({f}) && d in dirs && UserPage(v) && f < |memory|
      modifies this`memory, this`owner, this`userMemory, mm`used, mm.bitmap
      ensures Inv(if ok then {} else {f}) && KernelKept(old(Now()), Now())
      ensures Pages(memory) && Pages(old(memory))
      ensures !ok <==> old(WantsTable(d, v) && Full(mm.Taken(), mm.Frames()))
      ensures !ok ==> memory == old(memory) && mm.Taken() == old(mm.Taken()) && userMemory == old(userMemory)
      ensures ok ==> SameBut(old(memory), memory, dirs, d, v, Entry(f, PageBits(type_))) && Granted(memory, d, v, type_)
      ensures LeafPagesKept(old(Now()), memory) && memory[f] == old(memory)[f]
    {
      hide Sound, Mm.Taken, Mm.Valid, Lookup, KernelKept, SaysSame, SameBut, PageBits, WantsTable, Full, Granted;
      ghost var before := Now();
      var t := TableFor(d, v, f);
      if t == 0 {
        return false;
      }
      ghost var s := Now();
      var j := v % ENTRIES;
      LookupAt(s, mm.Taken(), {f}, userMemory, t, j);
      InFlightFrame(s, mm.Taken(), userMemory, f);
      assert v == v / ENTRIES * ENTRIES + j;
      var e := Entry(f, PageBits(type_));
      var old_ := memory[t][j];
      if old_ == ZERO {
        StepLink(s, mm.Taken(), userMemory, t, j, e);
        memory := memory[t := memory[t][j := e]];
        owner := owner[f := Leaf(d, v / ENTRIES, j)];
        SayChain(before, s, Now(), d, v, e);
      } else {
        StepReplace(s, mm.Taken(), userMemory, t, j, e);
        memory := memory[t := memory[t][j := e]];
        owner := (owner - {old_.frame})[f := Leaf(d, v / ENTRIES, j)];
        mm.FreePage(old_.frame * PAGE);
        userMemory := userMemory - PAGE;
        SayChain(before, s, Now(), d, v, e);
      }
      KernelChain(before, s, Now());
      SameButHere(before.memory, memory, dirs, d, v, e);
      GrantedBits(Now(), mm.Taken(), {}, userMemory, d, v, type_);
      return true;
    }

    /** pg_get_entry: the table and the index of the entry for a virtual page, if there is a table. */
    method GetEntry(d: nat, v: nat) returns (t: nat, j: nat)
      requires Inv({}) && d in dirs && UserPage(v)
      ensures Pages(memory) && j == v % ENTRIES
      ensures t == 0 ==> Lookup(memory, d, v) == ZERO
      ensures t != 0 ==> t in owner && owner[t] == Table(d, v / ENTRIES) && t < |memory|
                         && memory[t][j] == Lookup(memory, d, v)
                         && (memory[t][j] == ZERO || memory[t][j].bits & USER != 0)
    {
      hide Sound, Mm.Taken, Mm.Valid, Lookup;
      ghost var s := Now();
      var offset := v / ENTRIES;
      j := v % ENTRIES;
      assert UserEntry(offset);
      TableAt(s, mm.Taken(), {}, userMemory, d, offset);
      var e := memory[d][offset];
      if e.bits & PRESENT == 0 || e.bits & LARGE != 0 {
        LookupWithoutTable(s, mm.Taken(), {}, userMemory, d, offset);
        return 0, j;
      }
      t := e.frame;
      LookupAt(s, mm.Taken(), {}, userMemory, t, j);
      assert v == offset * ENTRIES + j;
    }

    // pg_enter_kernel and pg_leave_kernel.
    method EnterKernel()
      modifies this`cr3, this`cpuCr3, this`pgState
      ensures cr3 == kernelDirectory == cpuCr3 && pgState == old(pgState) + 1
    {
      cr3 := kernelDirectory;
      pgState := pgState + 1;
      if cpuCr3 == kernelDirectory {
        return;
      }
      cpuCr3 := kernelDirectory;
    }

    method LeaveKernel()
      requires pgState > 0
      modifies this`cr3, this`cpuCr3, this`pgState
      ensures pgState == old(pgState) - 1
      ensures if pgState == 0 && pgCr3 != 0 then cr3 == cpuCr3 == pgCr3 else cr3 == old(cr3) && cpuCr3 == old(cpuCr3)
    {
      pgState := pgState - 1;
      if pgState != 0 {
        return;
      }
      if pgCr3 == 0 {
        return;
      }
      cr3 := pgCr3;
      cpuCr3 := pgCr3;
    }

    lemma FullIsExhausted()
      requires Full(mm.Taken(), mm.Frames()) && Pages(memory)
      ensures SaysSame(memory, memory, dirs) && Exhausted()
    {
      assert Full(mm.Taken() + {0}, mm.Frames());
    }

    lemma ReturnedIsExhausted(full: set<nat>, f: nat)
      requires Full(full, mm.Frames()) && mm.Taken() == full - {f}
      ensures Exhausted()
    {
      hide Mm.Taken;
      assert Full(mm.Taken() + {f}, mm.Frames());
    }

    /** A fresh page at virtual page v: the body of the loop of pg_map_user.  The result is its frame, or 0 if the
        frames are exhausted; then nothing has changed. */
    method MapFresh(d: nat, v: nat, type_: PageType) returns (f: nat)
      requires Inv({}) && d in dirs && UserPage(v)
      modifies this`memory, this`owner, this`userMemory, mm`used, mm.bitmap
      ensures Inv({}) && KernelKept(old(Now()), Now()) && Pages(memory) && Pages(old(memory))
      ensures ContentsKept(old(memory), memory, dirs)
      ensures f == 0 ==> SaysSame(old(memory), memory, dirs) && Exhausted()
      ensures f != 0 ==> f < |memory| && memory[f] == ZeroPage()
      ensures f != 0 ==>
                SameBut(old(memory), memory, dirs, d, v, Entry(f, PageBits(type_))) && Granted(memory, d, v, type_)
    {
      hide Sound, Mm.Taken, Mm.Valid, Lookup, KernelKept, SaysSame, SameBut, PageBits, Full, WantsTable, Exhausted, Granted;
      ghost var before := Now();
      ghost var taken := mm.Taken();
      SoundPages(before, taken, {}, userMemory);
      KeptStart(before, 0, 0, false);
      var addr := mm.AllocPage();
      if addr == 0 {
        FullIsExhausted();
        LeavesAreMapped(before, taken, {}, userMemory, memory);
        return 0;
      }
      f := addr / PAGE;
      ghost var charge := userMemory;
      FreeIsNobodys(before, taken, {}, charge, d, f);
      StepTake(before, taken, userMemory, f);
      StepClear(before, taken + {f}, userMemory + PAGE, f);
      var zero := ZeroPage();
      memory := memory[f := zero];
      userMemory := userMemory + PAGE;
      ghost var s := Now();
      var ok := MapVirtual(d, v, f, type_);
      LeavesAreMapped(before, taken, {}, charge, memory);
      KernelChain(before, s, Now());
      if !ok {
        StepReturn(Now(), mm.Taken(), userMemory, f);
        ghost var full := mm.Taken();
        mm.FreePage(addr);
        userMemory := userMemory - PAGE;
        ReturnedIsExhausted(full, f);
        return 0;
      }
      SayChain(before, s, Now(), d, v, Entry(f, PageBits(type_)));
    }

    /** pg_map_user: fresh pages for a range of virtual addresses, from its end to its start.

        Every page from `from` to the end of the range is mapped to a page of the process with the requested
        bits; nothing else changes.  The address is returned exactly if this is the whole range; if it is not, then
        the frames are exhausted.
     */
    method MapUser(vaddr: nat, size: nat, type_: PageType) returns (r: nat, ghost from: nat)
      requires Valid() && vaddr < SPACE && size < SPACE
      modifies this, mm`used, mm.bitmap
      ensures Valid() && KernelKept(old(Now()), Now()) && Pages(memory) && Pages(old(memory))
      ensures pgCr3 == old(pgCr3) && pgAltCr3 == old(pgAltCr3) && pgState == old(pgState)
      ensures r == 0 || r == vaddr
      ensures !UserRange(vaddr, size) || old(cpuCr3) == kernelDirectory ==> r == 0 && memory == old(memory)
      ensures UserRange(vaddr, size) && old(cpuCr3) != kernelDirectory ==>
                && vaddr / PAGE <= from <= EndPage(vaddr, size) && (r == vaddr <==> from == vaddr / PAGE)
                && Mapped(old(memory), memory, dirs, pgCr3, from, EndPage(vaddr, size), PageBits(type_))
                && Cleared(old(memory), memory, dirs, pgCr3, from, EndPage(vaddr, size))
                && (forall w | UserPage(w) && from <= w < EndPage(vaddr, size) :: Granted(memory, pgCr3, w, type_))
                && (r == 0 ==> Exhausted())
    {
      hide Sound, Mm.Taken, Mm.Valid, Lookup, KernelKept, SaysSame, SameBut, PageBits, Mapped, EndPage, Exhausted, Granted;
      hide Cleared, ContentsKept;
      from := 0;
      var directory := cpuCr3;
      ghost var before := Now();
      SoundPages(before, mm.Taken(), {}, userMemory);
      KeptStart(before, 0, 0, false);
      if directory == kernelDirectory {
        return 0, from;
      }
      if directory != cr3 {
        assert false;
      }
      if size == 0 || vaddr < 0x1000_0000 {
        return 0, from;
      }
      if vaddr + size > SPACE {
        return 0, from;
      }
      r := vaddr;
      var first := vaddr / PAGE * PAGE;
      var end := ((vaddr + size) % SPACE + 0xFFF) % SPACE / PAGE * PAGE;
      EndPageWraps(vaddr, size);
      from := EndPage(vaddr, size);
      NothingMapped(before, directory, from, PageBits(type_));
      NothingCleared(before, mm.Taken(), userMemory, directory, from);
      EnterKernel();
      while end != first
        invariant Inv({}) && KernelKept(before, Now()) && Pages(memory)
        invariant dirs == before.dirs && directory in dirs
        invariant dirs == {pgCr3, pgAltCr3} - {0} && pgCr3 == old(pgCr3) && pgAltCr3 == old(pgAltCr3)
        invariant cr3 == cpuCr3 == kernelDirectory && pgState == old(pgState) + 1
        invariant r == vaddr && first == vaddr / PAGE * PAGE
        invariant vaddr / PAGE <= from <= EndPage(vaddr, size) && end == from * PAGE % SPACE
        invariant Mapped(before.memory, memory, dirs, directory, from, EndPage(vaddr, size), PageBits(type_))
        invariant Cleared(before.memory, memory, dirs, directory, from, EndPage(vaddr, size))
        decreases from
      {
        ghost var s := Now();
        PagesDiffer(vaddr, from);
        end := (end + SPACE - PAGE) % SPACE;
        var f := MapFresh(directory, end / PAGE, type_);
        KernelChain(before, s, Now());
        if f == 0 {
          SameMapped(before, s, Now(), directory, from, EndPage(vaddr, size), PageBits(type_));
          SameCleared(before, s, Now(), directory, from, EndPage(vaddr, size));
          r := 0;
          break;
        }
        MoreMapped(before, s, Now(), directory, from, EndPage(vaddr, size), Entry(f, PageBits(type_)));
        MoreCleared(before, s, Now(), directory, from, EndPage(vaddr, size), Entry(f, PageBits(type_)));
        from := from - 1;
      }
      MappedIsGranted(before, Now(), mm.Taken(), {}, userMemory, directory, from, EndPage(vaddr, size), type_);
      LeaveKernel();
    }

    /** pg_unmap_user: the pages of the range are freed; nothing else changes. */
    method UnmapUser(vaddr: nat, size: nat) returns (e: Error)
      requires Valid() && vaddr < SPACE && size < SPACE
      modifies this, mm`used, mm.bitmap
      ensures Valid() && KernelKept(old(Now()), Now()) && Pages(memory) && Pages(old(memory))
      ensures pgCr3 == old(pgCr3) && pgAltCr3 == old(pgAltCr3) && pgState == old(pgState)
      ensures e == if UserRange(vaddr, size) && old(cpuCr3) != kernelDirectory then Ok else BadArgument
      ensures e == BadArgument ==> memory == old(memory)
      ensures e == Ok ==> Unmapped(old(memory), memory, dirs, pgCr3, vaddr / PAGE, EndPage(vaddr, size))
    {
      hide Sound, Mm.Taken, Mm.Valid, Lookup, KernelKept, SaysSame, SameBut, Unmapped;
      var directory := cpuCr3;
      ghost var before := Now();
      SoundPages(before, mm.Taken(), {}, userMemory);
      KeptStart(before, 0, 0, false);
      if directory == kernelDirectory {
        return BadArgument;
      }
      if directory != cr3 {
        assert false;
      }
      if size == 0 || vaddr < 0x1000_0000 {
        return BadArgument;
      }
      if vaddr + size > SPACE {
        return BadArgument;
      }
      var beg := vaddr / PAGE * PAGE;
      var end := ((vaddr + size) % SPACE + 0xFFF) % SPACE / PAGE * PAGE;
      EndPageWraps(vaddr, size);
      ghost var n := vaddr / PAGE;
      NothingUnmapped(before, directory, n);
      EnterKernel();
      while end != beg
        invariant Inv({}) && KernelKept(before, Now()) && Pages(memory)
        invariant dirs == before.dirs && directory in dirs
        invariant dirs == {pgCr3, pgAltCr3} - {0} && pgCr3 == old(pgCr3) && pgAltCr3 == old(pgAltCr3)
        invariant cr3 == cpuCr3 == kernelDirectory && pgState == old(pgState) + 1
        invariant vaddr / PAGE <= n <= EndPage(vaddr, size) && beg == n * PAGE % SPACE
        invariant end == EndPage(vaddr, size) * PAGE % SPACE
        invariant Unmapped(before.memory, memory, dirs, directory, vaddr / PAGE, n)
        decreases EndPage(vaddr, size) - n
      {
        ghost var s := Now();
        PagesBelowEnd(vaddr, size, n);
        var t, j := GetEntry(directory, beg / PAGE);
        beg := (beg + PAGE) % SPACE;
        if t == 0 || memory[t][j].bits & USER == 0 {
          UserBitOfZero();
          OneAlreadyUnmapped(before, s, directory, vaddr / PAGE, n);
          n := n + 1;
          continue;
        }
        ClearEntry(t, j);
        KernelChain(before, s, Now());
        OneMoreUnmapped(before, s, Now(), directory, vaddr / PAGE, n);
        n := n + 1;
      }
      LeaveKernel();
      return Ok;
    }

    // ----- The directories of the process

    lemma KeptStartNow()
      ensures KernelKept(Now(), Now())
    {
    }

    lemma DirectoryIsNotNull(d: nat)
      requires Inv({}) && d in dirs
      ensures d != 0 && d != kernelDirectory
    {
      SoundPages(Now(), mm.Taken(), {}, userMemory);
      DirectoryIsOwned(Now(), mm.Taken(), {}, userMemory, d);
      OwnedFrame(Now(), mm.Taken(), {}, userMemory, d);
    }

    /** pg_create: a task without a directory gets one that maps no user page. */
    method Create() returns (e: Error)
      requires Valid()
      modifies this, mm`used, mm.bitmap
      ensures Valid() && KernelKept(old(Now()), Now())
      ensures e == Ok ==> old(pgCr3) == 0 && cr3 == pgCr3 != 0 && MapsNothing(memory, pgCr3)
      ensures e == Unexpected <==> old(pgCr3) != 0
      ensures e == OutOfMemory <==> old(pgCr3) == 0 && old(NoDirectoryFrame())
      ensures e == OutOfMemory || e == Unexpected || e == Ok
      ensures e != Ok ==> memory == old(memory) && pgCr3 == old(pgCr3) && pgAltCr3 == old(pgAltCr3)
    {
      hide Sound, Mm.Taken, Mm.Valid, Lookup, SaysSame, KernelKept, NoDirectoryFrame;
      KeptStartNow();
      if pgCr3 != 0 {
        return Unexpected;
      }
      var d := CreateCr3();
      if d == 0 {
        return OutOfMemory;
      }
      pgCr3, cr3, cpuCr3 := d, d, d;
      DirectoryIsNotNull(d);
      return Ok;
    }

    /** pg_delete: afterwards no frame is taken but those that were taken for other purposes. */
    method Delete()
      requires Valid()
      modifies this, mm`used, mm.bitmap
      ensures Valid() && KernelKept(old(Now()), Now())
      ensures pgCr3 == 0 && pgAltCr3 == 0
      ensures mm.Taken() == kernelFrames && userMemory == 0 && owner == map[]
    {
      hide Sound, Mm.Taken, Mm.Valid, Lookup, KernelKept, Kept;
      KeptStartNow();
      var directory := pgCr3;
      if directory == 0 {
        assert dirs == {};
        NothingTaken(Now(), mm.Taken(), userMemory);
        return;
      }
      ghost var before := Now();
      DirectoryIsNotNull(directory);
      pgCr3 := 0;
      cr3, cpuCr3 := kernelDirectory, kernelDirectory;
      DeleteCr3(directory, false);
      ghost var middle := Now();
      directory := pgAltCr3;
      if directory != 0 {
        pgAltCr3 := 0;
        DeleteCr3(directory, false);
        KernelChain(before, middle, Now());
      }
      assert dirs == {};
      NothingTaken(Now(), mm.Taken(), userMemory);
    }

    /** pg_sync_arctic: unmarked pages are freed and marked ones lose their mark. */
    method SyncArctic()
      requires Valid()
      modifies this, mm`used, mm.bitmap
      ensures Valid() && KernelKept(old(Now()), Now()) && Pages(memory) && Pages(old(memory))
      ensures pgCr3 == old(pgCr3) && pgAltCr3 == old(pgAltCr3) && dirs == old(dirs)
      ensures forall c, w | c in dirs && UserPage(w) ::
                Lookup(memory, c, w) ==
                if c == pgCr3 then Kept(old(Lookup(memory, c, w)), true) else old(Lookup(memory, c, w))
    {
      hide Sound, Mm.Taken, Mm.Valid, Lookup, KernelKept, Kept;
      SoundPages(Now(), mm.Taken(), {}, userMemory);
      KeptStartNow();
      var directory := pgCr3;
      if directory == 0 {
        return;
      }
      EnterKernel();
      DeleteCr3(directory, true);
      LeaveKernel();
    }

    /** pg_alt_create: the directory of the process is set aside for a new one that maps no user page. */
    method AltCreate() returns (e: Error)
      requires Valid()
      modifies this, mm`used, mm.bitmap
      ensures Valid() && KernelKept(old(Now()), Now()) && Pages(memory) && Pages(old(memory))
      ensures e == Unexpected <==> old(pgCr3) == 0 || old(pgAltCr3) != 0
      ensures e == OutOfMemory <==> old(pgCr3) != 0 && old(pgAltCr3) == 0 && old(NoDirectoryFrame())
      ensures e == OutOfMemory || e == Unexpected || e == Ok
      ensures e == Ok ==> pgAltCr3 == old(pgCr3) && cr3 == pgCr3 && MapsNothing(memory, pgCr3)
                          && forall w | UserPage(w) :: Lookup(memory, pgAltCr3, w) == old(Lookup(memory, pgCr3, w))
      ensures e != Ok ==> memory == old(memory) && pgCr3 == old(pgCr3) && pgAltCr3 == old(pgAltCr3)
    {
      hide Sound, Mm.Taken, Mm.Valid, Lookup, KernelKept, NoDirectoryFrame;
      SoundPages(Now(), mm.Taken(), {}, userMemory);
      KeptStartNow();
      if pgCr3 == 0 || pgAltCr3 != 0 {
        return Unexpected;
      }
      EnterKernel();
      var d := CreateCr3();
      LeaveKernel();
      if d == 0 {
        return OutOfMemory;
      }
      DirectoryIsNotNull(d);
      pgAltCr3 := pgCr3;
      pgCr3, cr3, cpuCr3 := d, d, d;
      return Ok;
    }

    /** pg_alt_accept: the directory that was set aside goes; the process keeps its pages. */
    method AltAccept()
      requires Valid()
      modifies this, mm`used, mm.bitmap
      ensures Valid() && KernelKept(old(Now()), Now()) && Pages(memory) && Pages(old(memory))
      ensures pgCr3 == old(pgCr3)
      ensures pgAltCr3 == if old(cpuCr3) == old(pgCr3) then 0 else old(pgAltCr3)
      ensures forall c, w | c in dirs && UserPage(w) :: Lookup(memory, c, w) == old(Lookup(memory, c, w))
    {
      hide Sound, Mm.Taken, Mm.Valid, Lookup, KernelKept, Kept;
      SoundPages(Now(), mm.Taken(), {}, userMemory);
      KeptStartNow();
      var aside := pgAltCr3;
      if aside == 0 || pgCr3 != cpuCr3 {
        return;
      }
      pgAltCr3 := 0;
      EnterKernel();
      DeleteCr3(aside, false);
      LeaveKernel();
    }

    /** pg_alt_delete: the process goes back to the directory that was set aside, with the pages it had. */
    method AltDelete()
      requires Valid()
      modifies this, mm`used, mm.bitmap
      ensures Valid() && KernelKept(old(Now()), Now()) && Pages(memory) && Pages(old(memory))
      ensures if old(pgAltCr3) != 0 && old(cpuCr3) == old(pgCr3) then pgCr3 == old(pgAltCr3) && pgAltCr3 == 0
              else pgCr3 == old(pgCr3) && pgAltCr3 == old(pgAltCr3)
      ensures forall c, w | c in dirs && UserPage(w) :: Lookup(memory, c, w) == old(Lookup(memory, c, w))
    {
      hide Sound, Mm.Taken, Mm.Valid, Lookup, KernelKept, Kept;
      SoundPages(Now(), mm.Taken(), {}, userMemory);
      KeptStartNow();
      var current := cpuCr3;
      if pgAltCr3 == 0 || pgCr3 != current {
        return;
      }
      pgCr3 := pgAltCr3;
      pgAltCr3 := 0;
      EnterKernel();
      DeleteCr3(current, false);
      LeaveKernel();
    }

    /** Any run of the operations: the invariant holds after each of them, the kernel's memory is never
        touched, and deleting the address spaces then gives back every frame. */
    method Run(commands: seq<Command>)
      requires Valid()
      modifies this, mm`used, mm.bitmap
      ensures Valid() && KernelKept(old(Now()), Now())
      ensures mm.Taken() == kernelFrames && userMemory == 0
    {
      hide Valid, Mm.Valid, Mm.Taken, KernelKept;
      KeptStartNow();
      ghost var before := Now();
      for n := 0 to |commands|
        invariant Valid() && KernelKept(before, Now())
      {
        ghost var s := Now();
        match commands[n] {
          case CreateSpace =>
            var e := Create();
          case MapRange(vaddr, size, type_) =>
            var r;
            ghost var from;
            r, from := MapUser(vaddr % SPACE, size % SPACE, type_);
          case UnmapRange(vaddr, size) =>
            var e := UnmapUser(vaddr % SPACE, size % SPACE);
          case SetAside =>
            var e := AltCreate();
          case Accept => AltAccept();
          case GoBack => AltDelete();
          case Sync => SyncArctic();
          case DeleteSpaces => Delete();
        }
        KernelChain(before, s, Now());
      }
      ghost var s := Now();
      Delete();
      KernelChain(before, s, Now());
    }
  }
}
