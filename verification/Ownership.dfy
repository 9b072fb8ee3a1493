/** How every frame of physical memory is accounted for while page tables are built and taken down. */
module Ownership {
  import opened Machine
  import opened PhysicalMemory
  import opened PageTables

  /** Physical memory, who owns its frames, the live page directories, and the frames taken by others. */
  datatype State = State(memory: Memory, owner: Owners, dirs: set<nat>, kernel: set<nat>, kernelDirectory: nat)

  /** The taken frames are the kernel's, the owned ones and those in flight, and no frame is two of these. */
  ghost predicate Partition(taken: set<nat>, kernel: set<nat>, owned: set<nat>, inFlight: set<nat>)
  {
    taken == kernel + owned + inFlight && kernel !! owned && kernel !! inFlight && owned !! inFlight
  }

  ghost predicate SameShared(p: seq<Entry>, q: seq<Entry>)
    requires |p| == ENTRIES == |q|
  {
    forall i | 0 <= i < FIRST_USER :: p[i] == q[i]
  }

  /** The directories' lower entries are those of the kernel's directory. */
  ghost predicate SharesKernel(m: Memory, dirs: set<nat>, kernel: nat)
    requires Pages(m)
  {
    kernel < |m| && forall d | d in dirs :: d < |m| && SameShared(m[d], m[kernel])
  }

  /** A task is charged for exactly its pages and those on their way into its tables. */
  ghost predicate Sound(s: State, taken: set<nat>, inFlight: set<nat>, charge: int)
  {
    && Owned(s.memory, s.owner, s.dirs)
    && Partition(taken, s.kernel, s.owner.Keys, inFlight)
    && 0 in s.kernel && s.kernelDirectory in s.kernel && s.kernelDirectory != 0
    && SharesKernel(s.memory, s.dirs, s.kernelDirectory)
    && charge == PAGE * (|Leaves(s.owner)| + |inFlight|)
  }

  /** Nothing but owned or free frames differ. */
  ghost predicate KernelKept(s: State, s2: State)
  {
    && |s.memory| == |s2.memory| && s.kernel == s2.kernel && s.kernelDirectory == s2.kernelDirectory
    && forall f | f in s.kernel && f < |s.memory| :: s2.memory[f] == s.memory[f]
  }

  lemma SoundPages(s: State, taken: set<nat>, inFlight: set<nat>, charge: int)
    requires Sound(s, taken, inFlight, charge)
    ensures Pages(s.memory) && s.kernelDirectory < |s.memory|
    ensures forall d | d in s.dirs :: 0 < d < |s.memory| && d in taken
  {
    InMemory(s.memory, s.owner, s.dirs);
  }

  /** An owned frame is in memory and is neither the kernel's nor free nor on its way. */
  lemma OwnedFrame(s: State, taken: set<nat>, inFlight: set<nat>, charge: int, f: nat)
    requires Sound(s, taken, inFlight, charge) && f in s.owner
    ensures Pages(s.memory) && 0 < f < |s.memory| && f !in s.kernel && f in taken && f !in inFlight
    ensures f in s.dirs <==> s.owner[f] == Directory
  {
    InMemory(s.memory, s.owner, s.dirs);
    assert Referenced(s.memory, s.owner, s.dirs, f);
  }

  lemma DirectoryIsOwned(s: State, taken: set<nat>, inFlight: set<nat>, charge: int, d: nat)
    requires Sound(s, taken, inFlight, charge) && d in s.dirs
    ensures d in s.owner && s.owner[d] == Directory
  {
  }

  lemma UnusedDirectoryEntry(s: State, taken: set<nat>, inFlight: set<nat>, charge: int, d: nat, i: nat)
    requires Sound(s, taken, inFlight, charge) && d in s.dirs && UserEntry(i)
    requires Pages(s.memory) && d < |s.memory| && s.memory[d][i].bits & PRESENT == 0
    ensures s.memory[d][i] == ZERO
  {
    assert TableEntry(s.memory[d][i], s.owner, d, i);
  }

  // ----- Sets

  lemma PartitionTake(taken: set<nat>, kernel: set<nat>, owned: set<nat>, inFlight: set<nat>, f: nat)
    requires Partition(taken, kernel, owned, inFlight) && f !in taken
    ensures Partition(taken + {f}, kernel, owned + {f}, inFlight)
    ensures Partition(taken + {f}, kernel, owned, inFlight + {f})
    ensures f !in kernel && f !in owned
  {
  }

  lemma PartitionMove(taken: set<nat>, kernel: set<nat>, owned: set<nat>, inFlight: set<nat>, f: nat)
    requires Partition(taken, kernel, owned, inFlight)
    ensures f in owned ==> f !in kernel && f in taken && Partition(taken - {f}, kernel, owned - {f}, inFlight)
    ensures f in inFlight ==> Partition(taken - {f}, kernel, owned, inFlight - {f})
    ensures f in inFlight ==> f !in kernel && f !in owned && Partition(taken, kernel, owned + {f}, inFlight - {f})
  {
  }

  lemma KeysWith(owner: Owners, f: nat, slot: Slot)
    ensures owner[f := slot].Keys == owner.Keys + {f}
  {
  }

  lemma KeysWithout(owner: Owners, f: nat)
    ensures (owner - {f}).Keys == owner.Keys - {f}
  {
  }

  lemma OneLeafMore(owner: Owners, f: nat)
    requires f !in owner
    ensures |Leaves(owner) + {f}| == |Leaves(owner)| + 1
  {
  }

  lemma OneLeafLess(owner: Owners, f: nat)
    requires f in owner && owner[f].Leaf?
    ensures |Leaves(owner) - {f}| == |Leaves(owner)| - 1
  {
  }

  // ----- Sharing

  lemma ShareDirectory(m: Memory, dirs: set<nat>, kernel: nat, d: nat, page: seq<Entry>)
    requires Pages(m) && SharesKernel(m, dirs, kernel) && d < |m| && d != kernel
    requires |page| == ENTRIES && SameShared(page, m[kernel])
    ensures Pages(m[d := page]) && SharesKernel(m[d := page], dirs + {d}, kernel)
  {
  }

  /** Writes above the shared part, and into other frames, keep the sharing. */
  lemma ShareKept(m: Memory, dirs: set<nat>, kernel: nat, f: nat, i: nat, e: Entry)
    requires Pages(m) && SharesKernel(m, dirs, kernel) && f < |m| && f != kernel && i < ENTRIES
    requires f in dirs ==> UserEntry(i)
    ensures Pages(m[f := m[f][i := e]]) && SharesKernel(m[f := m[f][i := e]], dirs, kernel)
  {
    var m2 := m[f := m[f][i := e]];
    assert Pages(m2);
    forall d | d in dirs
      ensures d < |m2| && SameShared(m2[d], m2[kernel])
    {
      assert SameShared(m[d], m[kernel]);
    }
  }

  lemma ShareKeptByPage(m: Memory, dirs: set<nat>, kernel: nat, f: nat, page: seq<Entry>)
    requires Pages(m) && SharesKernel(m, dirs, kernel) && f < |m| && f != kernel && f !in dirs && |page| == ENTRIES
    ensures Pages(m[f := page]) && SharesKernel(m[f := page], dirs, kernel)
  {
    var m2 := m[f := page];
    assert Pages(m2);
    forall d | d in dirs
      ensures d < |m2| && SameShared(m2[d], m2[kernel])
    {
      assert SameShared(m[d], m[kernel]);
    }
  }

  // ----- The steps

  /** A page directory as pg_create_cr3 fills it. */
  ghost function NewDirectory(s: State): (page: seq<Entry>)
    requires Pages(s.memory) && s.kernelDirectory < |s.memory|
    ensures |page| == ENTRIES
  {
    s.memory[s.kernelDirectory][..FIRST_USER] + ZeroPage()[FIRST_USER..]
  }

  lemma NewDirectoryIs(s: State)
    requires Pages(s.memory) && s.kernelDirectory < |s.memory|
    ensures SameShared(NewDirectory(s), s.memory[s.kernelDirectory])
    ensures forall i | UserEntry(i) :: NewDirectory(s)[i] == ZERO
  {
  }

  lemma StepCreate(s: State, taken: set<nat>, charge: int, d: nat)
    requires Sound(s, taken, {}, charge) && d < |s.memory| && d !in taken
    ensures Pages(s.memory) && s.kernelDirectory < |s.memory|
    ensures var s2 := s.(memory := s.memory[d := NewDirectory(s)], owner := s.owner[d := Directory], dirs := s.dirs + {d});
            Sound(s2, taken + {d}, {}, charge) && KernelKept(s, s2) && d !in s.dirs
  {
    hide Owned, Leaves, SaysSame, Lookup, Partition, SharesKernel, NewDirectory;
    SoundPages(s, taken, {}, charge);
    var page := NewDirectory(s);
    NewDirectoryIs(s);
    PartitionTake(taken, s.kernel, s.owner.Keys, {}, d);
    KeysWith(s.owner, d, Directory);
    LinkDirectory(s.memory, s.owner, s.dirs, d, page);
    ShareDirectory(s.memory, s.dirs, s.kernelDirectory, d, page);
  }

  lemma FreeFrame(s: State, taken: set<nat>, charge: int, f: nat)
    requires Sound(s, taken, {}, charge) && f !in taken
    ensures f !in s.owner && f !in s.kernel && f !in s.dirs
  {
  }

  lemma EmptyDirectory(m: Memory, d: nat, page: seq<Entry>)
    requires Pages(m) && d < |m| && |page| == ENTRIES
    requires forall i | UserEntry(i) :: page[i] == ZERO
    ensures forall v | UserPage(v) :: Lookup(m[d := page], d, v) == ZERO
  {
    forall v | UserPage(v)
      ensures Lookup(m[d := page], d, v) == ZERO
    {
      assert UserEntry(v / ENTRIES);
    }
  }

  lemma NewDirectorySays(s: State, taken: set<nat>, charge: int, d: nat)
    requires Sound(s, taken, {}, charge) && d < |s.memory| && d !in taken
    ensures Pages(s.memory) && s.kernelDirectory < |s.memory| && Pages(s.memory[d := NewDirectory(s)])
    ensures SaysSame(s.memory, s.memory[d := NewDirectory(s)], s.dirs)
    ensures forall v | UserPage(v) :: Lookup(s.memory[d := NewDirectory(s)], d, v) == ZERO
  {
    hide Owned, Leaves, SaysSame, Lookup, Partition, SharesKernel, NewDirectory;
    SoundPages(s, taken, {}, charge);
    NewDirectoryIs(s);
    FreeFrame(s, taken, charge, d);
    DirectoryPageSaysSame(s.memory, s.owner, s.dirs, d, NewDirectory(s));
    assert s.dirs - {d} == s.dirs;
    EmptyDirectory(s.memory, d, NewDirectory(s));
  }

  lemma StepTable(s: State, taken: set<nat>, inFlight: set<nat>, charge: int, d: nat, i: nat, t: nat, bits: bv12)
    requires Sound(s, taken, inFlight, charge) && d in s.dirs && UserEntry(i)
    requires t < |s.memory| && t !in taken && TableBits(bits)
    requires Pages(s.memory) && d < |s.memory| && s.memory[d][i].bits & PRESENT == 0
    ensures var s2 := s.(memory := s.memory[t := ZeroPage()][d := s.memory[d][i := Entry(t, bits)]],
                         owner := s.owner[t := Table(d, i)]);
            && Sound(s2, taken + {t}, inFlight, charge) && KernelKept(s, s2)
            && SaysSame(s.memory, s2.memory, s.dirs)
  {
    hide Owned, Leaves, SaysSame, Lookup, Partition, SharesKernel;
    UnusedDirectoryEntry(s, taken, inFlight, charge, d, i);
    DirectoryIsOwned(s, taken, inFlight, charge, d);
    OwnedFrame(s, taken, inFlight, charge, d);
    SoundPages(s, taken, inFlight, charge);
    PartitionTake(taken, s.kernel, s.owner.Keys, inFlight, t);
    KeysWith(s.owner, t, Table(d, i));
    LinkTable(s.memory, s.owner, s.dirs, d, i, t, bits);
    NewTableSaysSame(s.memory, s.owner, s.dirs, d, i, t, bits);
    ShareKeptByPage(s.memory, s.dirs, s.kernelDirectory, t, ZeroPage());
    ShareKept(s.memory[t := ZeroPage()], s.dirs, s.kernelDirectory, d, i, Entry(t, bits));
  }

  /** The table that a directory entry refers to. */
  lemma SoundTable(s: State, taken: set<nat>, inFlight: set<nat>, charge: int, d: nat, i: nat)
    requires Sound(s, taken, inFlight, charge) && d in s.dirs && UserEntry(i)
    ensures Pages(s.memory) && d < |s.memory| && TableEntry(s.memory[d][i], s.owner, d, i)
  {
    hide Leaves, Partition, SharesKernel, Referenced;
    InMemory(s.memory, s.owner, s.dirs);
  }

  lemma TableAt(s: State, taken: set<nat>, inFlight: set<nat>, charge: int, d: nat, i: nat)
    requires Sound(s, taken, inFlight, charge) && d in s.dirs && UserEntry(i)
    ensures Pages(s.memory) && d < |s.memory|
    ensures var e := s.memory[d][i];
            && e.bits & LARGE == 0
            && (e.bits & PRESENT != 0 <==> e != ZERO)
            && (e != ZERO ==> e.frame in s.owner && s.owner[e.frame] == Table(d, i) && 0 < e.frame < |s.memory|
                              && e.frame !in s.kernel)
  {
    SoundTable(s, taken, inFlight, charge, d, i);
    if s.memory[d][i] != ZERO {
      OwnedFrame(s, taken, inFlight, charge, s.memory[d][i].frame);
    }
  }

  lemma OwnedIsOwned(s: State, taken: set<nat>, inFlight: set<nat>, charge: int)
    requires Sound(s, taken, inFlight, charge)
    ensures Owned(s.memory, s.owner, s.dirs)
  {
  }

  lemma LinkKeepsSound(s: State, taken: set<nat>, charge: int, t: nat, j: nat, e: Entry)
    requires Sound(s, taken, {e.frame}, charge) && t in s.owner && s.owner[t].Table? && j < ENTRIES
    requires e.frame < |s.memory| && e.bits & USER != 0
    requires Pages(s.memory) && t < |s.memory| && s.memory[t][j] == ZERO
    ensures var slot := Leaf(s.owner[t].dir, s.owner[t].i, j);
            var s2 := s.(memory := s.memory[t := s.memory[t][j := e]], owner := s.owner[e.frame := slot]);
            Sound(s2, taken, {}, charge) && KernelKept(s, s2) && Pages(s2.memory)
  {
    hide Owned, Leaves, Partition, SharesKernel, Pages;
    OwnedFrame(s, taken, {e.frame}, charge, t);
    var slot := Leaf(s.owner[t].dir, s.owner[t].i, j);
    PartitionMove(taken, s.kernel, s.owner.Keys, {e.frame}, e.frame);
    assert {e.frame} - {e.frame} == {};
    KeysWith(s.owner, e.frame, slot);
    OneLeafMore(s.owner, e.frame);
    LinkLeaf(s.memory, s.owner, s.dirs, t, j, e);
    ShareKept(s.memory, s.dirs, s.kernelDirectory, t, j, e);
  }

  lemma StepLink(s: State, taken: set<nat>, charge: int, t: nat, j: nat, e: Entry)
    requires Sound(s, taken, {e.frame}, charge) && t in s.owner && s.owner[t].Table? && j < ENTRIES
    requires e.frame < |s.memory| && e.bits & USER != 0
    requires Pages(s.memory) && t < |s.memory| && s.memory[t][j] == ZERO
    ensures var d, i := s.owner[t].dir, s.owner[t].i;
            var s2 := s.(memory := s.memory[t := s.memory[t][j := e]], owner := s.owner[e.frame := Leaf(d, i, j)]);
            && Sound(s2, taken, {}, charge) && KernelKept(s, s2)
            && SameBut(s.memory, s2.memory, s.dirs, d, i * ENTRIES + j, e)
  {
    hide Sound, SameBut, Lookup, KernelKept, Pages;
    OwnedFrame(s, taken, {e.frame}, charge, t);
    LinkKeepsSound(s, taken, charge, t, j, e);
    OwnedIsOwned(s, taken, {e.frame}, charge);
    WriteShowsOnce(s.memory, s.owner, s.dirs, t, j, e);
  }

  /** The page at an entry is freed and the entry cleared. */
  lemma StepUnlink(s: State, taken: set<nat>, inFlight: set<nat>, charge: int, t: nat, j: nat)
    requires Sound(s, taken, inFlight, charge) && t in s.owner && s.owner[t].Table? && j < ENTRIES
    requires Pages(s.memory) && t < |s.memory| && s.memory[t][j] != ZERO
    ensures var f := s.memory[t][j].frame;
            var s2 := s.(memory := s.memory[t := s.memory[t][j := ZERO]], owner := s.owner - {f});
            && f in taken && f != 0 && f in s.owner && f < |s.memory| && s.owner[f].Leaf? && f !in inFlight
            && Sound(s2, taken - {f}, inFlight, charge - PAGE) && KernelKept(s, s2)
            && SameBut(s.memory, s2.memory, s.dirs, s.owner[t].dir, s.owner[t].i * ENTRIES + j, ZERO)
  {
    hide Owned, Leaves, SameBut, Lookup, Partition, SharesKernel;
    OwnedFrame(s, taken, inFlight, charge, t);
    var f := s.memory[t][j].frame;
    UnlinkLeaf(s.memory, s.owner, s.dirs, t, j);
    OwnedFrame(s, taken, inFlight, charge, f);
    PartitionMove(taken, s.kernel, s.owner.Keys, inFlight, f);
    KeysWithout(s.owner, f);
    OneLeafLess(s.owner, f);
    WriteShowsOnce(s.memory, s.owner, s.dirs, t, j, ZERO);
    ShareKept(s.memory, s.dirs, s.kernelDirectory, t, j, ZERO);
  }

  lemma SameButTwice(m: Memory, m1: Memory, m2: Memory, dirs: set<nat>, d: nat, v: nat, e1: Entry, e2: Entry)
    requires Pages(m) && Pages(m1) && Pages(m2)
    requires SameBut(m, m1, dirs, d, v, e1) && SameBut(m1, m2, dirs, d, v, e2)
    ensures SameBut(m, m2, dirs, d, v, e2)
  {
    hide Lookup;
  }

  /** The page at an entry is freed and another one takes its place. */
  lemma StepReplace(s: State, taken: set<nat>, charge: int, t: nat, j: nat, e: Entry)
    requires Sound(s, taken, {e.frame}, charge) && t in s.owner && s.owner[t].Table? && j < ENTRIES
    requires e.frame < |s.memory| && e.bits & USER != 0
    requires Pages(s.memory) && t < |s.memory| && s.memory[t][j] != ZERO
    ensures var d, i, f := s.owner[t].dir, s.owner[t].i, s.memory[t][j].frame;
            var s2 := s.(memory := s.memory[t := s.memory[t][j := e]],
                         owner := (s.owner - {f})[e.frame := Leaf(d, i, j)]);
            && f in taken && f != 0
            && Sound(s2, taken - {f}, {}, charge - PAGE) && KernelKept(s, s2)
            && SameBut(s.memory, s2.memory, s.dirs, d, i * ENTRIES + j, e)
  {
    hide Sound, SameBut, Lookup;
    StepUnlink(s, taken, {e.frame}, charge, t, j);
    var f := s.memory[t][j].frame;
    var s1 := s.(memory := s.memory[t := s.memory[t][j := ZERO]], owner := s.owner - {f});
    OwnedFrame(s, taken, {e.frame}, charge, t);
    SoundPages(s1, taken - {f}, {e.frame}, charge - PAGE);
    StepLink(s1, taken - {f}, charge - PAGE, t, j, e);
    assert s.memory[t][j := ZERO][j := e] == s.memory[t][j := e];
    assert s1.memory[t] == s.memory[t][j := ZERO];
    assert s1.memory[t := s1.memory[t][j := e]] == s.memory[t := s.memory[t][j := e]];
    SameButTwice(s.memory, s1.memory, s.memory[t := s.memory[t][j := e]], s.dirs, s.owner[t].dir,
                 s.owner[t].i * ENTRIES + j, ZERO, e);
  }

  lemma StepRewrite(s: State, taken: set<nat>, inFlight: set<nat>, charge: int, t: nat, j: nat, bits: bv12)
    requires Sound(s, taken, inFlight, charge) && t in s.owner && s.owner[t].Table? && j < ENTRIES
    requires Pages(s.memory) && t < |s.memory| && s.memory[t][j] != ZERO && bits & USER != 0
    ensures var e := Entry(s.memory[t][j].frame, bits);
            var s2 := s.(memory := s.memory[t := s.memory[t][j := e]]);
            && Sound(s2, taken, inFlight, charge) && KernelKept(s, s2)
            && SameBut(s.memory, s2.memory, s.dirs, s.owner[t].dir, s.owner[t].i * ENTRIES + j, e)
  {
    hide Owned, Leaves, SameBut, Lookup, Partition, SharesKernel;
    OwnedFrame(s, taken, inFlight, charge, t);
    var e := Entry(s.memory[t][j].frame, bits);
    RewriteLeaf(s.memory, s.owner, s.dirs, t, j, bits);
    WriteShowsOnce(s.memory, s.owner, s.dirs, t, j, e);
    ShareKept(s.memory, s.dirs, s.kernelDirectory, t, j, e);
  }

  /** An empty table is freed. */
  lemma StepDropTable(s: State, taken: set<nat>, charge: int, d: nat, i: nat)
    requires Sound(s, taken, {}, charge) && d in s.dirs && UserEntry(i)
    requires Pages(s.memory) && d < |s.memory| && s.memory[d][i] != ZERO
    requires s.memory[d][i].frame < |s.memory| && s.memory[s.memory[d][i].frame] == ZeroPage()
    ensures var t := s.memory[d][i].frame;
            var s2 := s.(memory := s.memory[d := s.memory[d][i := ZERO]], owner := s.owner - {t});
            && t in taken && t != 0
            && Sound(s2, taken - {t}, {}, charge) && KernelKept(s, s2)
            && SaysSame(s.memory, s2.memory, s.dirs)
  {
    hide Owned, Leaves, SaysSame, Lookup, Partition, SharesKernel;
    DirectoryIsOwned(s, taken, {}, charge, d);
    OwnedFrame(s, taken, {}, charge, d);
    var t := s.memory[d][i].frame;
    UnlinkTable(s.memory, s.owner, s.dirs, d, i);
    PartitionMove(taken, s.kernel, s.owner.Keys, {}, t);
    KeysWithout(s.owner, t);
    EmptyTableSaysSame(s.memory, s.owner, s.dirs, d, i);
    ShareKept(s.memory, s.dirs, s.kernelDirectory, d, i, ZERO);
  }

  lemma SharesWithout(m: Memory, dirs: set<nat>, kernel: nat, d: nat, page: seq<Entry>)
    requires Pages(m) && SharesKernel(m, dirs, kernel) && d < |m| && d != kernel && |page| == ENTRIES
    ensures Pages(m[d := page]) && SharesKernel(m[d := page], dirs - {d}, kernel)
  {
  }

  /** A directory without tables is freed. */
  lemma StepDropDirectory(s: State, taken: set<nat>, charge: int, d: nat, page: seq<Entry>)
    requires Sound(s, taken, {}, charge) && d in s.dirs && |page| == ENTRIES
    requires Pages(s.memory) && d < |s.memory| && forall i | UserEntry(i) :: s.memory[d][i] == ZERO
    ensures var s2 := s.(memory := s.memory[d := page], owner := s.owner - {d}, dirs := s.dirs - {d});
            && d in taken && d != 0
            && Sound(s2, taken - {d}, {}, charge) && KernelKept(s, s2)
            && SaysSame(s.memory, s2.memory, s.dirs - {d})
  {
    hide Owned, Leaves, SaysSame, Lookup, Partition, SharesKernel;
    DirectoryIsOwned(s, taken, {}, charge, d);
    OwnedFrame(s, taken, {}, charge, d);
    SharesWithout(s.memory, s.dirs, s.kernelDirectory, d, page);
    UnlinkDirectory(s.memory, s.owner, s.dirs, d, page);
    PartitionMove(taken, s.kernel, s.owner.Keys, {}, d);
    KeysWithout(s.owner, d);
    DirectoryPageSaysSame(s.memory, s.owner, s.dirs, d, page);
  }

  lemma StepTake(s: State, taken: set<nat>, charge: int, f: nat)
    requires Sound(s, taken, {}, charge) && f !in taken
    ensures Sound(s, taken + {f}, {f}, charge + PAGE)
  {
    hide Owned, Leaves, Partition, SharesKernel;
    PartitionTake(taken, s.kernel, s.owner.Keys, {}, f);
    assert {} + {f} == {f};
  }

  lemma InFlightFrame(s: State, taken: set<nat>, charge: int, f: nat)
    requires Sound(s, taken, {f}, charge)
    ensures f !in s.owner && f !in s.kernel && f !in s.dirs && f != 0 && f in taken
  {
  }

  lemma OwnedIgnores(m: Memory, owner: Owners, dirs: set<nat>, f: nat, page: seq<Entry>)
    requires Owned(m, owner, dirs) && f < |m| && f !in owner && |page| == ENTRIES
    ensures Owned(m[f := page], owner, dirs)
  {
    InMemory(m, owner, dirs);
    var m2 := m[f := page];
    forall g | g in owner
      ensures Referenced(m2, owner, dirs, g)
    {
      assert Referenced(m, owner, dirs, g);
    }
  }

  /** The contents of a page in flight are nobody's business yet. */
  lemma StepClear(s: State, taken: set<nat>, charge: int, f: nat)
    requires Sound(s, taken, {f}, charge) && f < |s.memory|
    ensures Sound(s.(memory := s.memory[f := ZeroPage()]), taken, {f}, charge)
    ensures KernelKept(s, s.(memory := s.memory[f := ZeroPage()]))
    ensures Pages(s.memory) && SaysSame(s.memory, s.memory[f := ZeroPage()], s.dirs)
  {
    hide Owned, Leaves, SaysSame, Partition, SharesKernel;
    SoundPages(s, taken, {f}, charge);
    InFlightFrame(s, taken, charge, f);
    OwnedIgnores(s.memory, s.owner, s.dirs, f, ZeroPage());
    ShareKeptByPage(s.memory, s.dirs, s.kernelDirectory, f, ZeroPage());
    assert s.dirs - {f} == s.dirs;
    DirectoryPageSaysSame(s.memory, s.owner, s.dirs, f, ZeroPage());
  }

  lemma StepReturn(s: State, taken: set<nat>, charge: int, f: nat)
    requires Sound(s, taken, {f}, charge)
    ensures f in taken && f != 0 && Sound(s, taken - {f}, {}, charge - PAGE)
  {
    hide Owned, Leaves, SharesKernel;
    assert {f} - {f} == {};
  }

  // ----- What the tables say

  lemma LookupAt(s: State, taken: set<nat>, inFlight: set<nat>, charge: int, t: nat, j: nat)
    requires Sound(s, taken, inFlight, charge) && t in s.owner && s.owner[t].Table? && j < ENTRIES
    ensures var d, i := s.owner[t].dir, s.owner[t].i;
            && Pages(s.memory) && t < |s.memory| && d in s.dirs && UserEntry(i)
            && UserPage(i * ENTRIES + j) && Lookup(s.memory, d, i * ENTRIES + j) == s.memory[t][j]
            && (s.memory[t][j] == ZERO || s.memory[t][j].bits & USER != 0)
  {
    hide Leaves, Partition, SharesKernel, Referenced;
    InMemory(s.memory, s.owner, s.dirs);
    var d, i := s.owner[t].dir, s.owner[t].i;
    SoundTable(s, taken, inFlight, charge, d, i);
    assert LeafEntry(s.memory[t][j], s.owner, d, i, j);
    var v := i * ENTRIES + j;
    assert v / ENTRIES == i && v % ENTRIES == j;
  }

  /** Without a table, nothing is mapped under a directory entry. */
  lemma LookupWithoutTable(s: State, taken: set<nat>, inFlight: set<nat>, charge: int, d: nat, i: nat)
    requires Sound(s, taken, inFlight, charge) && d in s.dirs && UserEntry(i)
    requires Pages(s.memory) && d < |s.memory| && s.memory[d][i].bits & PRESENT == 0
    ensures forall v | UserPage(v) && v / ENTRIES == i :: Lookup(s.memory, d, v) == ZERO
  {
  }

  lemma OtherLeaves(owner: Owners, f: nat)
    requires f in owner && owner[f].Leaf?
    ensures forall g | g in owner && !owner[g].Leaf? :: g in owner - {f} && (owner - {f})[g] == owner[g]
  {
  }

  // ----- What ownership means for the tables

  lemma MappedLeaf(s: State, taken: set<nat>, inFlight: set<nat>, charge: int, d: nat, v: nat)
    requires Sound(s, taken, inFlight, charge) && d in s.dirs && UserPage(v)
    requires Pages(s.memory) && Lookup(s.memory, d, v) != ZERO
    ensures var f := Lookup(s.memory, d, v).frame;
            f in s.owner && s.owner[f] == Leaf(d, v / ENTRIES, v % ENTRIES)
  {
    hide Leaves, Partition, SharesKernel, Referenced;
    assert UserEntry(v / ENTRIES);
    SoundTable(s, taken, inFlight, charge, d, v / ENTRIES);
    var t := s.memory[d][v / ENTRIES].frame;
    assert LeafEntry(s.memory[t][v % ENTRIES], s.owner, d, v / ENTRIES, v % ENTRIES);
  }

  /** The bits of a mapped page alone say what a task may do with it. */
  lemma AccessIsOfPage(s: State, taken: set<nat>, inFlight: set<nat>, charge: int, d: nat, v: nat)
    requires Sound(s, taken, inFlight, charge) && d in s.dirs && UserPage(v)
    ensures Pages(s.memory)
    ensures CanRead(s.memory, d, v) <==> Readable(Lookup(s.memory, d, v).bits)
    ensures CanWrite(s.memory, d, v) <==> Writable(Lookup(s.memory, d, v).bits)
  {
    hide Leaves, Partition, SharesKernel, Referenced;
    assert UserEntry(v / ENTRIES);
    SoundTable(s, taken, inFlight, charge, d, v / ENTRIES);
  }

  /** No frame is mapped twice, in one directory or in two; and a mapped frame is a taken one of the process. */
  lemma NoFrameMappedTwice(s: State, taken: set<nat>, inFlight: set<nat>, charge: int, c: nat, v: nat, d: nat, w: nat)
    requires Sound(s, taken, inFlight, charge) && c in s.dirs && d in s.dirs && UserPage(v) && UserPage(w)
    requires Pages(s.memory) && Lookup(s.memory, c, v) != ZERO && Lookup(s.memory, d, w) != ZERO
    ensures var f := Lookup(s.memory, c, v).frame; f in taken && f !in s.kernel && f !in inFlight && f != 0
    ensures Lookup(s.memory, c, v).frame == Lookup(s.memory, d, w).frame ==> c == d && v == w
  {
    hide Sound, Lookup;
    MappedLeaf(s, taken, inFlight, charge, c, v);
    MappedLeaf(s, taken, inFlight, charge, d, w);
    OwnedFrame(s, taken, inFlight, charge, Lookup(s.memory, c, v).frame);
  }

  /** The pages that are mapped, by directory and number. */
  ghost function MappedPages(s: State): set<(nat, nat)>
    requires Pages(s.memory)
  {
    set d: nat, v: nat | d in s.dirs && v < ENTRIES * ENTRIES && UserPage(v) && Lookup(s.memory, d, v) != ZERO :: (d, v)
  }

  ghost function PageOf(slot: Slot): (nat, nat)
    requires slot.Leaf?
  {
    (slot.dir, slot.i * ENTRIES + slot.j)
  }

  lemma LeavesAreLeaves(owner: Owners)
    ensures forall f | f in Leaves(owner) :: f in owner && owner[f].Leaf?
  {
  }

  ghost function PagesOf(owner: Owners, leaves: set<nat>): set<(nat, nat)>
    requires leaves <= Leaves(owner)
  {
    LeavesAreLeaves(owner);
    set f | f in leaves :: PageOf(owner[f])
  }

  lemma {:induction false} PagesOfSize(owner: Owners, leaves: set<nat>)
    requires leaves <= Leaves(owner)
    requires forall f, g | f in leaves && g in leaves && f != g :: PageOf(owner[f]) != PageOf(owner[g])
    ensures |PagesOf(owner, leaves)| == |leaves|
  {
    if leaves == {} {
      assert PagesOf(owner, leaves) == {};
    } else {
      var f :| f in leaves;
      PagesOfSize(owner, leaves - {f});
      assert PagesOf(owner, leaves) == PagesOf(owner, leaves - {f}) + {PageOf(owner[f])};
    }
  }

  lemma ChargeIs(s: State, taken: set<nat>, charge: int)
    requires Sound(s, taken, {}, charge)
    ensures charge == PAGE * |Leaves(s.owner)|
  {
  }

  lemma IsMapped(s: State, p: (nat, nat))
    requires Pages(s.memory)
    ensures p in MappedPages(s) <==> p.0 in s.dirs && UserPage(p.1) && Lookup(s.memory, p.0, p.1) != ZERO
  {
    hide Lookup;
  }

  lemma IsLeaf(owner: Owners, f: nat)
    ensures f in Leaves(owner) <==> f in owner && owner[f].Leaf?
  {
  }

  lemma LeafIsMapped(s: State, taken: set<nat>, charge: int, f: nat)
    requires Sound(s, taken, {}, charge) && f in s.owner && s.owner[f].Leaf?
    ensures Pages(s.memory) && PageOf(s.owner[f]) in MappedPages(s)
    ensures Lookup(s.memory, PageOf(s.owner[f]).0, PageOf(s.owner[f]).1).frame == f
  {
    hide Lookup, MappedPages, Leaves, Partition, SharesKernel;
    assert Referenced(s.memory, s.owner, s.dirs, f);
    var slot := s.owner[f];
    LookupAt(s, taken, {}, charge, s.memory[slot.dir][slot.i].frame, slot.j);
    IsMapped(s, PageOf(slot));
  }

  lemma MappedPageHasLeaf(s: State, taken: set<nat>, charge: int, p: (nat, nat))
    requires Sound(s, taken, {}, charge) && Pages(s.memory) && p in MappedPages(s)
    ensures p in PagesOf(s.owner, Leaves(s.owner))
  {
    hide Sound, Lookup, MappedPages, Leaves;
    IsMapped(s, p);
    MappedLeaf(s, taken, {}, charge, p.0, p.1);
    var f := Lookup(s.memory, p.0, p.1).frame;
    IsLeaf(s.owner, f);
    assert PageOf(s.owner[f]) == p;
  }

  /** The process is charged 4096 bytes for each page that is mapped under its directories. */
  lemma ChargedForMappedPages(s: State, taken: set<nat>, charge: int)
    requires Sound(s, taken, {}, charge)
    ensures Pages(s.memory) && charge == PAGE * |MappedPages(s)|
  {
    hide Sound, Lookup, MappedPages, Leaves;
    SoundPages(s, taken, {}, charge);
    ChargeIs(s, taken, charge);
    var leaves := Leaves(s.owner);
    forall f | f in leaves
      ensures f in s.owner && s.owner[f].Leaf? && PageOf(s.owner[f]) in MappedPages(s)
      ensures Lookup(s.memory, PageOf(s.owner[f]).0, PageOf(s.owner[f]).1).frame == f
    {
      IsLeaf(s.owner, f);
      LeafIsMapped(s, taken, charge, f);
    }
    PagesOfSize(s.owner, leaves);
    forall p | p in MappedPages(s)
      ensures p in PagesOf(s.owner, leaves)
    {
      MappedPageHasLeaf(s, taken, charge, p);
    }
    assert MappedPages(s) == PagesOf(s.owner, leaves);
  }
}
