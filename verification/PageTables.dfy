/** Two-level page tables in physical memory (kernel/base/pg.c, 32-bit paging) and who owns which frame.

    A table entry is a 32-bit word: a page frame and twelve flag bits.
 */
module PageTables {
  datatype Entry = Entry(frame: nat, bits: bv12)

  const ZERO: Entry := Entry(0, 0)
  const ENTRIES: nat := 1024
  const FIRST_USER: nat := 64   // the directory entries below are shared with the kernel

  const PRESENT: bv12 := 0x001
  const WRITE: bv12 := 0x002
  const USER: bv12 := 0x004
  const LARGE: bv12 := 0x080
  const ARCTIC: bv12 := 0x800

  /** The word as a number, which is also what mm_free_page is given. */
  function Word(e: Entry): nat
  {
    e.frame * 0x1000 + e.bits as int
  }

  type Memory = seq<seq<Entry>>

  ghost predicate Pages(m: Memory)
  {
    forall f | 0 <= f < |m| :: |m[f]| == ENTRIES
  }

  function ZeroPage(): (p: seq<Entry>)
    ensures |p| == ENTRIES
  {
    seq(ENTRIES, _ => ZERO)
  }

  /** What a frame is used for: a page directory, the page table at entry i of a directory, or the page at
      entry j of that table. */
  datatype Slot =
    | Directory
    | Table(dir: nat, i: nat)
    | Leaf(dir: nat, i: nat, j: nat)

  type Owners = map<nat, Slot>

  ghost predicate UserEntry(i: int) { FIRST_USER <= i < ENTRIES }

  /** The bits of a directory entry: what a task may do is left to the entries of the table. */
  predicate TableBits(bits: bv12)
  {
    bits & PRESENT != 0 && bits & WRITE != 0 && bits & USER != 0 && bits & LARGE == 0
  }

  /** An unused directory entry, or the only reference to an owned table. */
  ghost predicate TableEntry(e: Entry, owner: Owners, d: nat, i: nat)
  {
    e == ZERO || (TableBits(e.bits) && e.frame in owner && owner[e.frame] == Table(d, i))
  }

  /** An unused table entry, or the only reference to an owned page. */
  ghost predicate LeafEntry(e: Entry, owner: Owners, d: nat, i: nat, j: nat)
  {
    e == ZERO || (e.bits & USER != 0 && e.frame in owner && owner[e.frame] == Leaf(d, i, j))
  }

  /** The frame is referenced from where its slot says. */
  ghost predicate Referenced(m: Memory, owner: Owners, dirs: set<nat>, f: nat)
    requires Pages(m) && f in owner
  {
    && f < |m|
    && match owner[f]
       case Directory => f in dirs
       case Table(d, i) =>
         d in dirs && d < |m| && UserEntry(i) && m[d][i] != ZERO && m[d][i].frame == f
       case Leaf(d, i, j) =>
         d in dirs && d < |m| && UserEntry(i) && j < ENTRIES
         && var t := m[d][i].frame;
            t in owner && owner[t] == Table(d, i) && t < |m| && m[t][j] != ZERO && m[t][j].frame == f
  }

  /** Every owned frame is referenced from its slot, and every reference in a directory or table is to a frame
      owned with just that slot: no frame is referenced twice and no reference dangles. */
  ghost predicate Owned(m: Memory, owner: Owners, dirs: set<nat>)
  {
    && Pages(m)
    && (forall d | d in dirs :: d in owner && owner[d] == Directory)
    && (forall f | f in owner :: Referenced(m, owner, dirs, f))
    && (forall d, i | d in dirs && UserEntry(i) :: TableEntry(m[d][i], owner, d, i))
    && (forall t, j | t in owner && owner[t].Table? && 0 <= j < ENTRIES ::
          LeafEntry(m[t][j], owner, owner[t].dir, owner[t].i, j))
  }

  ghost function Leaves(owner: Owners): set<nat>
  {
    set f | f in owner && owner[f].Leaf?
  }

  /** What the tables under directory d say about virtual page v. */
  ghost function Lookup(m: Memory, d: nat, v: nat): Entry
    requires Pages(m)
  {
    var i, j := v / ENTRIES, v % ENTRIES;
    if d < |m| && i < ENTRIES && m[d][i].bits & PRESENT != 0 && m[d][i].frame < |m| then m[m[d][i].frame][j] else ZERO
  }

  /** The walk of the processor from an address of 32 bits: the upper ten bits choose the entry of the directory and the
      next ten that of the table. */
  lemma WalkFromAddress(m: Memory, d: nat, address: nat)
    requires Pages(m) && d < |m| && address < 0x1_0000_0000
    ensures var i, j := address / 0x40_0000, address / 0x1000 % 0x400;
            && i < ENTRIES && j < ENTRIES
            && (m[d][i].bits & PRESENT != 0 && m[d][i].frame < |m| ==>
                  Lookup(m, d, address / 0x1000) == m[m[d][i].frame][j])
  {
    assert address / 0x1000 / 0x400 == address / 0x40_0000;
  }

  predicate Readable(bits: bv12)
  {
    bits & PRESENT != 0 && bits & USER != 0
  }

  predicate Writable(bits: bv12)
  {
    Readable(bits) && bits & WRITE != 0
  }

  /** What the processor lets a task do at virtual page v: the entries of the directory and of the table must both
      allow it. */
  ghost predicate CanRead(m: Memory, d: nat, v: nat)
    requires Pages(m)
  {
    d < |m| && v / ENTRIES < ENTRIES && Readable(m[d][v / ENTRIES].bits) && Readable(Lookup(m, d, v).bits)
  }

  ghost predicate CanWrite(m: Memory, d: nat, v: nat)
    requires Pages(m)
  {
    d < |m| && v / ENTRIES < ENTRIES && Writable(m[d][v / ENTRIES].bits) && Writable(Lookup(m, d, v).bits)
  }

  lemma LeavesWith(owner: Owners, f: nat, slot: Slot)
    requires f !in owner
    ensures Leaves(owner[f := slot]) == Leaves(owner) + if slot.Leaf? then {f} else {}
  {
  }

  lemma LeavesWithout(owner: Owners, f: nat)
    requires f in owner
    ensures Leaves(owner - {f}) == Leaves(owner) - {f}
    ensures !owner[f].Leaf? ==> Leaves(owner - {f}) == Leaves(owner)
  {
  }

  lemma InMemory(m: Memory, owner: Owners, dirs: set<nat>)
    requires Owned(m, owner, dirs)
    ensures forall f | f in owner :: f < |m|
    ensures forall f | f in owner && owner[f].Table? ::
              owner[f].dir in dirs && owner[f].dir < |m| && UserEntry(owner[f].i)
              && m[owner[f].dir][owner[f].i] != ZERO && m[owner[f].dir][owner[f].i].frame == f
  {
    forall f | f in owner
      ensures f < |m|
    {
      assert Referenced(m, owner, dirs, f);
    }
    forall f | f in owner && owner[f].Table?
      ensures owner[f].dir in dirs && owner[f].dir < |m| && UserEntry(owner[f].i)
              && m[owner[f].dir][owner[f].i] != ZERO && m[owner[f].dir][owner[f].i].frame == f
    {
      assert Referenced(m, owner, dirs, f);
    }
  }

  // ----- Linking and unlinking

  lemma LinkDirectory(m: Memory, owner: Owners, dirs: set<nat>, d: nat, page: seq<Entry>)
    requires Owned(m, owner, dirs) && d < |m| && d !in owner && |page| == ENTRIES
    requires forall i | UserEntry(i) :: page[i] == ZERO
    ensures Owned(m[d := page], owner[d := Directory], dirs + {d})
    ensures Leaves(owner[d := Directory]) == Leaves(owner)
  {
    hide Leaves;
    LeavesWith(owner, d, Directory);
    var m2, o2, ds := m[d := page], owner[d := Directory], dirs + {d};
    forall f | f in o2
      ensures Referenced(m2, o2, ds, f)
    {
      if f != d {
        assert Referenced(m, owner, dirs, f);
      }
    }
  }

  lemma LinkTableKeeps(m: Memory, owner: Owners, dirs: set<nat>, d: nat, i: nat, t: nat, bits: bv12, f: nat)
    requires Owned(m, owner, dirs) && d in dirs && UserEntry(i) && m[d][i] == ZERO
    requires t < |m| && t !in owner && TableBits(bits)
    ensures var m2, o2 := m[t := ZeroPage()][d := m[d][i := Entry(t, bits)]], owner[t := Table(d, i)];
            f in o2 ==> Referenced(m2, o2, dirs, f)
  {
    if f in owner {
      assert Referenced(m, owner, dirs, f);
    }
  }

  lemma LinkTable(m: Memory, owner: Owners, dirs: set<nat>, d: nat, i: nat, t: nat, bits: bv12)
    requires Owned(m, owner, dirs) && d in dirs && UserEntry(i) && m[d][i] == ZERO
    requires t < |m| && t !in owner && TableBits(bits)
    ensures Owned(m[t := ZeroPage()][d := m[d][i := Entry(t, bits)]], owner[t := Table(d, i)], dirs)
    ensures Leaves(owner[t := Table(d, i)]) == Leaves(owner)
  {
    hide Leaves, Referenced;
    LeavesWith(owner, t, Table(d, i));
    InMemory(m, owner, dirs);
    var m2, o2 := m[t := ZeroPage()][d := m[d][i := Entry(t, bits)]], owner[t := Table(d, i)];
    assert Entry(t, bits) != ZERO;
    forall f | f in o2
      ensures Referenced(m2, o2, dirs, f)
    {
      LinkTableKeeps(m, owner, dirs, d, i, t, bits, f);
    }
  }

  lemma LinkLeafKeeps(m: Memory, owner: Owners, dirs: set<nat>, t: nat, j: nat, e: Entry, f: nat)
    requires Owned(m, owner, dirs) && t in owner && owner[t].Table? && j < ENTRIES && m[t][j] == ZERO
    requires e.frame < |m| && e.frame !in owner && e.bits & USER != 0
    ensures var m2, o2 := m[t := m[t][j := e]], owner[e.frame := Leaf(owner[t].dir, owner[t].i, j)];
            f in o2 ==> Referenced(m2, o2, dirs, f)
  {
    if f in owner {
      assert Referenced(m, owner, dirs, f);
    }
  }

  lemma LinkLeaf(m: Memory, owner: Owners, dirs: set<nat>, t: nat, j: nat, e: Entry)
    requires Owned(m, owner, dirs) && t in owner && owner[t].Table? && j < ENTRIES && m[t][j] == ZERO
    requires e.frame < |m| && e.frame !in owner && e.bits & USER != 0
    ensures var slot := Leaf(owner[t].dir, owner[t].i, j);
            && Owned(m[t := m[t][j := e]], owner[e.frame := slot], dirs)
            && Leaves(owner[e.frame := slot]) == Leaves(owner) + {e.frame}
  {
    hide Leaves, Referenced;
    LeavesWith(owner, e.frame, Leaf(owner[t].dir, owner[t].i, j));
    InMemory(m, owner, dirs);
    var slot := Leaf(owner[t].dir, owner[t].i, j);
    var m2, o2 := m[t := m[t][j := e]], owner[e.frame := slot];
    assert e != ZERO;
    forall f | f in o2
      ensures Referenced(m2, o2, dirs, f)
    {
      LinkLeafKeeps(m, owner, dirs, t, j, e, f);
    }
  }

  lemma UnlinkLeafKeeps(m: Memory, owner: Owners, dirs: set<nat>, t: nat, j: nat, g: nat)
    requires Owned(m, owner, dirs) && t in owner && owner[t].Table? && j < ENTRIES && m[t][j] != ZERO
    ensures var m2, o2 := m[t := m[t][j := ZERO]], owner - {m[t][j].frame};
            g in o2 ==> Referenced(m2, o2, dirs, g)
  {
    if g in owner {
      assert Referenced(m, owner, dirs, g);
    }
  }

  lemma UnlinkLeaf(m: Memory, owner: Owners, dirs: set<nat>, t: nat, j: nat)
    requires Owned(m, owner, dirs) && t in owner && owner[t].Table? && j < ENTRIES && m[t][j] != ZERO
    ensures var f := m[t][j].frame;
            && f in owner && owner[f] == Leaf(owner[t].dir, owner[t].i, j)
            && Owned(m[t := m[t][j := ZERO]], owner - {f}, dirs)
            && Leaves(owner - {f}) == Leaves(owner) - {f}
  {
    hide Leaves, Referenced;
    InMemory(m, owner, dirs);
    var f := m[t][j].frame;
    assert LeafEntry(m[t][j], owner, owner[t].dir, owner[t].i, j);
    LeavesWithout(owner, f);
    var m2, o2 := m[t := m[t][j := ZERO]], owner - {f};
    forall g | g in o2
      ensures Referenced(m2, o2, dirs, g)
    {
      UnlinkLeafKeeps(m, owner, dirs, t, j, g);
    }
    forall s, k | s in o2 && o2[s].Table? && 0 <= k < ENTRIES
      ensures LeafEntry(m2[s][k], o2, o2[s].dir, o2[s].i, k)
    {
      assert LeafEntry(m[s][k], owner, owner[s].dir, owner[s].i, k);
      InMemory(m, owner, dirs);
    }
    forall d, i | d in dirs && UserEntry(i)
      ensures TableEntry(m2[d][i], o2, d, i)
    {
      assert TableEntry(m[d][i], owner, d, i);
    }
  }

  lemma UnlinkTableKeeps(m: Memory, owner: Owners, dirs: set<nat>, d: nat, i: nat, g: nat)
    requires Owned(m, owner, dirs) && d in dirs && UserEntry(i) && m[d][i] != ZERO
    requires m[d][i].frame < |m| && m[m[d][i].frame] == ZeroPage()
    ensures var m2, o2 := m[d := m[d][i := ZERO]], owner - {m[d][i].frame};
            g in o2 ==> Referenced(m2, o2, dirs, g)
  {
    if g in owner {
      assert Referenced(m, owner, dirs, g);
    }
  }

  lemma UnlinkTable(m: Memory, owner: Owners, dirs: set<nat>, d: nat, i: nat)
    requires Owned(m, owner, dirs) && d in dirs && UserEntry(i) && m[d][i] != ZERO
    requires m[d][i].frame < |m| && m[m[d][i].frame] == ZeroPage()
    ensures var t := m[d][i].frame;
            && t in owner && owner[t] == Table(d, i)
            && Owned(m[d := m[d][i := ZERO]], owner - {t}, dirs)
            && Leaves(owner - {t}) == Leaves(owner)
  {
    hide Leaves, Referenced;
    InMemory(m, owner, dirs);
    var t := m[d][i].frame;
    assert TableEntry(m[d][i], owner, d, i);
    LeavesWithout(owner, t);
    var m2, o2 := m[d := m[d][i := ZERO]], owner - {t};
    forall g | g in o2
      ensures Referenced(m2, o2, dirs, g)
    {
      UnlinkTableKeeps(m, owner, dirs, d, i, g);
    }
    forall s, k | s in o2 && o2[s].Table? && 0 <= k < ENTRIES
      ensures LeafEntry(m2[s][k], o2, o2[s].dir, o2[s].i, k)
    {
      assert LeafEntry(m[s][k], owner, owner[s].dir, owner[s].i, k);
    }
    forall c, k | c in dirs && UserEntry(k)
      ensures TableEntry(m2[c][k], o2, c, k)
    {
      assert TableEntry(m[c][k], owner, c, k);
    }
  }

  lemma UnlinkDirectory(m: Memory, owner: Owners, dirs: set<nat>, d: nat, page: seq<Entry>)
    requires Owned(m, owner, dirs) && d in dirs && |page| == ENTRIES
    requires d < |m| && forall i | UserEntry(i) :: m[d][i] == ZERO
    ensures d in owner && Owned(m[d := page], owner - {d}, dirs - {d})
    ensures Leaves(owner - {d}) == Leaves(owner)
  {
    LeavesWithout(owner, d);
    var m2, o2, ds := m[d := page], owner - {d}, dirs - {d};
    forall g | g in o2
      ensures Referenced(m2, o2, ds, g)
    {
      assert Referenced(m, owner, dirs, g);
    }
    forall s, k | s in o2 && o2[s].Table? && 0 <= k < ENTRIES
      ensures LeafEntry(m2[s][k], o2, o2[s].dir, o2[s].i, k)
    {
      assert LeafEntry(m[s][k], owner, owner[s].dir, owner[s].i, k);
    }
    forall c, k | c in ds && UserEntry(k)
      ensures TableEntry(m2[c][k], o2, c, k)
    {
      assert TableEntry(m[c][k], owner, c, k);
    }
  }

  lemma RewriteLeafKeeps(m: Memory, owner: Owners, dirs: set<nat>, t: nat, j: nat, bits: bv12, g: nat)
    requires Owned(m, owner, dirs) && t in owner && owner[t].Table? && j < ENTRIES && m[t][j] != ZERO
    requires bits & USER != 0 && g in owner
    ensures Referenced(m[t := m[t][j := Entry(m[t][j].frame, bits)]], owner, dirs, g)
  {
    assert Referenced(m, owner, dirs, g);
    assert Entry(m[t][j].frame, bits) != ZERO;
  }

  /** An entry of a table is replaced by one for the same frame. */
  lemma RewriteLeaf(m: Memory, owner: Owners, dirs: set<nat>, t: nat, j: nat, bits: bv12)
    requires Owned(m, owner, dirs) && t in owner && owner[t].Table? && j < ENTRIES && m[t][j] != ZERO
    requires bits & USER != 0
    ensures Owned(m[t := m[t][j := Entry(m[t][j].frame, bits)]], owner, dirs)
  {
    hide Referenced;
    InMemory(m, owner, dirs);
    assert LeafEntry(m[t][j], owner, owner[t].dir, owner[t].i, j);
    var m2 := m[t := m[t][j := Entry(m[t][j].frame, bits)]];
    assert Entry(m[t][j].frame, bits) != ZERO;
    forall g | g in owner
      ensures Referenced(m2, owner, dirs, g)
    {
      RewriteLeafKeeps(m, owner, dirs, t, j, bits, g);
    }
  }

  // ----- What the tables say

  /** A virtual page above the part that is shared with the kernel. */
  ghost predicate UserPage(v: int)
  {
    FIRST_USER * ENTRIES <= v < ENTRIES * ENTRIES
  }

  /** Under every directory the second memory says the same as the first, but for one page of one directory. */
  ghost predicate SameBut(m: Memory, m2: Memory, dirs: set<nat>, d: nat, v: nat, e: Entry)
    requires Pages(m) && Pages(m2)
  {
    forall c, w | c in dirs && UserPage(w) ::
      Lookup(m2, c, w) == if c == d && w == v then e else Lookup(m, c, w)
  }

  ghost predicate SaysSame(m: Memory, m2: Memory, dirs: set<nat>)
    requires Pages(m) && Pages(m2)
  {
    forall c, w | c in dirs && UserPage(w) :: Lookup(m2, c, w) == Lookup(m, c, w)
  }

  /** A write into a table shows at one virtual page of one directory only. */
  lemma WriteShowsOnce(m: Memory, owner: Owners, dirs: set<nat>, t: nat, j: nat, e: Entry)
    requires Owned(m, owner, dirs) && t in owner && owner[t].Table? && j < ENTRIES
    ensures t < |m| && SameBut(m, m[t := m[t][j := e]], dirs, owner[t].dir, owner[t].i * ENTRIES + j, e)
  {
    hide Referenced;
    InMemory(m, owner, dirs);
    var m2 := m[t := m[t][j := e]];
    forall c, w | c in dirs && UserPage(w)
      ensures Lookup(m2, c, w) == if c == owner[t].dir && w == owner[t].i * ENTRIES + j then e else Lookup(m, c, w)
    {
      assert UserEntry(w / ENTRIES);
      assert TableEntry(m[c][w / ENTRIES], owner, c, w / ENTRIES);
      assert TableEntry(m[owner[t].dir][owner[t].i], owner, owner[t].dir, owner[t].i);
    }
  }

  lemma NewTableSaysSame(m: Memory, owner: Owners, dirs: set<nat>, d: nat, i: nat, t: nat, bits: bv12)
    requires Owned(m, owner, dirs) && d in dirs && UserEntry(i) && m[d][i] == ZERO
    requires t < |m| && t !in owner && TableBits(bits)
    ensures Pages(m[t := ZeroPage()][d := m[d][i := Entry(t, bits)]])
    ensures SaysSame(m, m[t := ZeroPage()][d := m[d][i := Entry(t, bits)]], dirs)
  {
    hide Referenced;
    InMemory(m, owner, dirs);
    var m2 := m[t := ZeroPage()][d := m[d][i := Entry(t, bits)]];
    forall c, w | c in dirs && UserPage(w)
      ensures Lookup(m2, c, w) == Lookup(m, c, w)
    {
      assert UserEntry(w / ENTRIES);
      assert TableEntry(m[c][w / ENTRIES], owner, c, w / ENTRIES);
    }
  }

  lemma EmptyTableSaysSame(m: Memory, owner: Owners, dirs: set<nat>, d: nat, i: nat)
    requires Owned(m, owner, dirs) && d in dirs && UserEntry(i) && m[d][i] != ZERO
    requires m[d][i].frame < |m| && m[m[d][i].frame] == ZeroPage()
    ensures d < |m| && SaysSame(m, m[d := m[d][i := ZERO]], dirs)
  {
    hide Referenced;
    InMemory(m, owner, dirs);
    var m2 := m[d := m[d][i := ZERO]];
    forall c, w | c in dirs && UserPage(w)
      ensures Lookup(m2, c, w) == Lookup(m, c, w)
    {
      assert UserEntry(w / ENTRIES);
      assert TableEntry(m[c][w / ENTRIES], owner, c, w / ENTRIES);
    }
  }

  /** A new or dropped directory page says nothing about the other directories. */
  lemma DirectoryPageSaysSame(m: Memory, owner: Owners, dirs: set<nat>, d: nat, page: seq<Entry>)
    requires Owned(m, owner, dirs) && |page| == ENTRIES && d < |m|
    requires d in owner ==> owner[d] == Directory
    ensures SaysSame(m, m[d := page], dirs - {d})
  {
    hide Referenced;
    InMemory(m, owner, dirs);
    var m2 := m[d := page];
    forall c, w | c in dirs - {d} && UserPage(w)
      ensures Lookup(m2, c, w) == Lookup(m, c, w)
    {
      assert UserEntry(w / ENTRIES);
      assert TableEntry(m[c][w / ENTRIES], owner, c, w / ENTRIES);
    }
  }

  lemma OwnerNeedsDirectory(m: Memory, owner: Owners, dirs: set<nat>, f: nat)
    requires Owned(m, owner, dirs) && f in owner
    ensures dirs != {}
  {
    assert Referenced(m, owner, dirs, f);
  }

  /** Without directories nothing is owned. */
  lemma NothingOwned(m: Memory, owner: Owners)
    requires Owned(m, owner, {})
    ensures owner.Keys == {}
  {
    if owner.Keys != {} {
      var f :| f in owner;
      OwnerNeedsDirectory(m, owner, {}, f);
    }
  }
}
