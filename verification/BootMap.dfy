/** The memory map of the boot program (boot/init/memory.c): entries with rising base addresses, each in force up
    to the next one; an allocator cuts blocks off the free ones.
 */
module BootMaps {
  import opened Arithmetic

  const FOUR_GIB: nat := 0x1_0000_0000
  const ADDRESSES: nat := 0x1_0000_0000_0000_0000

  const NORMAL: nat := 0x0000_0007
  const ALLOC_MIN: nat := 0x8086_0001
  const ALLOC_MAX: nat := 0x8086_FFFF
  const KERNEL: nat := 0xE000_0000
  const KERNEL_RESERVED: nat := 0xE000_FFFF

  const VALID_ENTRY: nat := 1
  const NO_INIT_ALLOC: nat := 0x1_0000

  // `other` stands for the 16 bytes that the manager compares and copies but does not interpret.
  datatype Entry = Entry(kind: nat, flags: nat, base: nat, other: int)

  const ZERO := Entry(0, 0, 0, 0)

  predicate IsAlloc(kind: nat)
  {
    ALLOC_MIN <= kind <= ALLOC_MAX
  }

  // ----- What a map says

  /** The entry in force at an address: walk on while the next base is not above it. */
  function InForce(current: Entry, rest: seq<Entry>, x: nat): Entry
    decreases |rest|
  {
    if rest == [] || rest[0].base > x then current else InForce(rest[0], rest[1..], x)
  }

  function At(m: seq<Entry>, x: nat): Entry
    requires m != []
  {
    InForce(m[0], m[1..], x)
  }

  /** What an entry says, numbers of allocations apart. */
  function Meaning(e: Entry): (nat, nat, int)
  {
    (if IsAlloc(e.kind) then ALLOC_MIN else e.kind, e.flags, e.other)
  }

  /** Two maps say the same about every address. */
  ghost predicate SameMeaning(m: seq<Entry>, n: seq<Entry>)
    requires m != [] && n != []
  {
    forall x: nat :: Meaning(At(m, x)) == Meaning(At(n, x))
  }

  ghost predicate Sorted(m: seq<Entry>)
  {
    forall i, j | 0 <= i < j < |m| :: m[i].base <= m[j].base
  }

  ghost predicate Strict(m: seq<Entry>)
  {
    forall i, j | 0 <= i < j < |m| :: m[i].base < m[j].base
  }

  /** From zero on, every address is covered. */
  ghost predicate Covers(m: seq<Entry>)
  {
    m != [] && m[0].base == 0 && Sorted(m)
  }

  // ----- The first pass: allocations are numbered

  function Numbered(rest: seq<Entry>, a: nat): (r: seq<Entry>)
    ensures |r| == |rest|
    decreases |rest|
  {
    if rest == [] then []
    else if IsAlloc(rest[0].kind) then [rest[0].(kind := ALLOC_MIN + a)] + Numbered(rest[1..], a + 1)
    else [rest[0]] + Numbered(rest[1..], a)
  }

  function Renumbered(m: seq<Entry>): (r: seq<Entry>)
    requires m != []
    ensures |r| == |m|
  {
    [m[0]] + Numbered(m[1..], 0)
  }

  lemma {:induction false} NumberedAt(rest: seq<Entry>, a: nat, k: nat)
    requires k < |rest| && a + |rest| <= 0xFFFF
    ensures var r := Numbered(rest, a)[k];
            && r.base == rest[k].base && Meaning(r) == Meaning(rest[k]) && IsAlloc(r.kind) == IsAlloc(rest[k].kind)
            && r.flags == rest[k].flags
    decreases |rest|
  {
    if k > 0 {
      NumberedAt(rest[1..], if IsAlloc(rest[0].kind) then a + 1 else a, k - 1);
    }
  }

  lemma {:induction false} NumberedMeaning(c: Entry, d: Entry, rest: seq<Entry>, a: nat, x: nat)
    requires Meaning(c) == Meaning(d) && a + |rest| <= 0xFFFF
    ensures Meaning(InForce(c, Numbered(rest, a), x)) == Meaning(InForce(d, rest, x))
    decreases |rest|
  {
    if rest != [] {
      var r := Numbered(rest, a);
      NumberedAt(rest, a, 0);
      var b := if IsAlloc(rest[0].kind) then a + 1 else a;
      assert r[1..] == Numbered(rest[1..], b);
      NumberedMeaning(r[0], rest[0], rest[1..], b, x);
    }
  }

  // ----- The second pass: entries that repeat their predecessor go

  predicate Repeats(m1: Entry, m2: Entry)
  {
    m1.kind == m2.kind && m1.flags == m2.flags && m1.other == m2.other
  }

  /** The entry at 4 GiB always stays; one with the base of its predecessor replaces it; one that repeats its
      predecessor is dropped. */
  function Merged(m1: Entry, rest: seq<Entry>): (r: seq<Entry>)
    ensures r != [] && r[0].base == m1.base && |r| <= |rest| + 1
    decreases |rest|
  {
    if rest == [] then [m1]
    else
      var m2 := rest[0];
      if m2.base == FOUR_GIB then [m1] + Merged(m2, rest[1..])
      else if m1.base == m2.base then Merged(m2, rest[1..])
      else if Repeats(m1, m2) then Merged(m1, rest[1..])
      else [m1] + Merged(m2, rest[1..])
  }

  /** The map after fix_memory_map. */
  function Fixed(m: seq<Entry>): (r: seq<Entry>)
    requires m != []
    ensures r != []
  {
    Merged(m[0], Renumbered(m)[1..])
  }

  lemma {:induction false} InForceRepeats(c: Entry, d: Entry, rest: seq<Entry>, x: nat)
    requires Repeats(c, d)
    ensures Repeats(InForce(c, rest, x), InForce(d, rest, x))
  {
    if rest != [] && rest[0].base <= x {
    }
  }

  lemma SortedCons(m1: Entry, r: seq<Entry>)
    requires r != [] && Sorted(r) && m1.base <= r[0].base
    ensures Sorted([m1] + r)
  {
    var m := [m1] + r;
    forall i, j | 0 <= i < j < |m|
      ensures m[i].base <= m[j].base
    {
      assert m[j] == r[j - 1];
      if i > 0 {
        assert m[i] == r[i - 1];
      }
    }
  }

  lemma SortedRest(m1: Entry, rest: seq<Entry>)
    requires Sorted([m1] + rest)
    ensures Sorted(rest) && (rest != [] ==> m1.base <= rest[0].base)
  {
    var m := [m1] + rest;
    assert m[0] == m1;
    assert forall i | 0 <= i < |rest| :: rest[i] == m[i + 1];
  }

  lemma SortedOne(m1: Entry)
    ensures Sorted([m1])
  {
  }

  lemma SortedTail(m1: Entry, rest: seq<Entry>)
    requires Sorted([m1] + rest) && rest != []
    ensures m1.base <= rest[0].base && Sorted(rest) && Sorted([rest[0]] + rest[1..]) && Sorted([m1] + rest[1..])
  {
    hide Sorted;
    SortedRest(m1, rest);
    assert [rest[0]] + rest[1..] == rest;
    SortedRest(rest[0], rest[1..]);
    if rest[1..] == [] {
      SortedOne(m1);
      assert [m1] + rest[1..] == [m1];
    } else {
      SortedCons(m1, rest[1..]);
    }
  }

  lemma {:induction false} MergedMeaning(m1: Entry, rest: seq<Entry>, x: nat)
    requires Sorted([m1] + rest) && m1.base <= x
    ensures Repeats(At(Merged(m1, rest), x), InForce(m1, rest, x))
    decreases |rest|
  {
    if rest != [] {
      var m2, tail := rest[0], rest[1..];
      SortedTail(m1, rest);
      if m2.base != FOUR_GIB && m1.base == m2.base {
        MergedMeaning(m2, tail, x);
      } else if m2.base != FOUR_GIB && Repeats(m1, m2) {
        MergedMeaning(m1, tail, x);
        if m2.base <= x {
          InForceRepeats(m1, m2, tail, x);
        } else if tail != [] {
          SortedTail(m2, tail);
        }
      } else {
        var r := Merged(m2, tail);
        assert ([m1] + r)[1..] == r;
        if m2.base <= x {
          MergedMeaning(m2, tail, x);
        }
      }
    }
  }

  lemma RenumberedSorted(m: seq<Entry>)
    requires m != [] && |m| <= 0xFFFF && Sorted(m)
    ensures Sorted([m[0]] + Renumbered(m)[1..]) && Sorted(Renumbered(m))
  {
    var r := Renumbered(m);
    forall k | 0 <= k < |m|
      ensures r[k].base == m[k].base
    {
      if k > 0 {
        NumberedAt(m[1..], 0, k - 1);
      }
    }
    assert [m[0]] + r[1..] == r;
  }

  /** fix_memory_map says the same about every address as before, numbers of allocations apart. */
  lemma FixedMeaning(m: seq<Entry>)
    requires Covers(m) && |m| <= 0xFFFF
    ensures SameMeaning(Fixed(m), m)
  {
    RenumberedSorted(m);
    forall x: nat
      ensures Meaning(At(Fixed(m), x)) == Meaning(At(m, x))
    {
      MergedMeaning(m[0], Renumbered(m)[1..], x);
      NumberedMeaning(m[0], m[0], m[1..], 0, x);
      assert Renumbered(m)[1..] == Numbered(m[1..], 0);
    }
  }

  // ----- The bases of a fixed map

  /** How many entries are at 4 GiB. */
  function Count4(m: seq<Entry>): nat
  {
    if m == [] then 0 else (if m[0].base == FOUR_GIB then 1 else 0) + Count4(m[1..])
  }

  lemma {:induction false} NoneAbove(m: seq<Entry>)
    requires Sorted(m) && (m != [] ==> m[0].base > FOUR_GIB)
    ensures Count4(m) == 0
  {
    if m != [] {
      NoneAbove(m[1..]);
    }
  }

  lemma StrictCons(m1: Entry, r: seq<Entry>)
    requires r != []
    ensures Strict([m1] + r) <==> m1.base < r[0].base && Strict(r)
  {
    var m := [m1] + r;
    assert m[0] == m1 && m[1] == r[0];
    if Strict(m) {
      assert forall i | 0 <= i < |r| :: r[i] == m[i + 1];
    }
    if m1.base < r[0].base && Strict(r) {
      forall i, j | 0 <= i < j < |m|
        ensures m[i].base < m[j].base
      {
        assert m[j] == r[j - 1];
        if i > 0 {
          assert m[i] == r[i - 1];
        }
      }
    }
  }

  /** The bases rise strictly after the pass if and only if at most one entry was at 4 GiB: the pass never drops
      one of those. */
  lemma {:induction false} MergedStrictIff(m1: Entry, rest: seq<Entry>)
    requires Sorted([m1] + rest)
    ensures Sorted(Merged(m1, rest))
    ensures Strict(Merged(m1, rest)) <==> Count4([m1] + rest) <= 1
    decreases |rest|
  {
    assert ([m1] + rest)[1..] == rest;
    if rest != [] {
      var m2, tail := rest[0], rest[1..];
      SortedTail(m1, rest);
      assert ([m1] + tail)[1..] == tail && ([m2] + tail)[1..] == tail && [m2] + tail == rest;
      if m2.base != FOUR_GIB && m1.base == m2.base {
        MergedStrictIff(m2, tail);
      } else if m2.base != FOUR_GIB && Repeats(m1, m2) {
        MergedStrictIff(m1, tail);
      } else {
        MergedStrictIff(m2, tail);
        StrictCons(m1, Merged(m2, tail));
        SortedCons(m1, Merged(m2, tail));
        if m1.base == FOUR_GIB && m2.base != FOUR_GIB {
          NoneAbove(rest);
        }
      }
    }
  }

  lemma {:induction false} NumberedCount4(rest: seq<Entry>, a: nat)
    requires a + |rest| <= 0xFFFF
    ensures Count4(Numbered(rest, a)) == Count4(rest)
    decreases |rest|
  {
    if rest != [] {
      NumberedAt(rest, a, 0);
      var b := if IsAlloc(rest[0].kind) then a + 1 else a;
      assert Numbered(rest, a)[1..] == Numbered(rest[1..], b);
      NumberedCount4(rest[1..], b);
    }
  }

  lemma FixedStrictIff(m: seq<Entry>)
    requires Covers(m) && |m| <= 0xFFFF
    ensures Covers(Fixed(m)) && |Fixed(m)| <= |m|
    ensures Strict(Fixed(m)) <==> Count4(m) <= 1
  {
    RenumberedSorted(m);
    MergedStrictIff(m[0], Renumbered(m)[1..]);
    NumberedCount4(m[1..], 0);
    assert Renumbered(m)[1..] == Numbered(m[1..], 0);
    var r := [m[0]] + Numbered(m[1..], 0);
    assert r[1..] == Numbered(m[1..], 0);
  }

  /** Two entries at 4 GiB: both stay. */
  lemma TwoAtFourGib()
    ensures var m := [Entry(NORMAL, 1, 0, 0), Entry(NORMAL, 1, FOUR_GIB, 0), Entry(NORMAL, 1, FOUR_GIB, 0)];
            Covers(m) && Count4(m) == 2 && Covers(Fixed(m)) && !Strict(Fixed(m))
  {
    var m := [Entry(NORMAL, 1, 0, 0), Entry(NORMAL, 1, FOUR_GIB, 0), Entry(NORMAL, 1, FOUR_GIB, 0)];
    assert Count4(m[2..]) == 1 && m[1..][1..] == m[2..];
    assert Count4(m[1..]) == 2;
    FixedStrictIff(m);
  }

  // ----- The numbers of allocations

  function CountKind(m: seq<Entry>, kind: nat): nat
  {
    if m == [] then 0 else (if m[0].kind == kind then 1 else 0) + CountKind(m[1..], kind)
  }

  /** No two allocations have the same number. */
  ghost predicate AllocsApart(m: seq<Entry>)
  {
    forall kind | IsAlloc(kind) :: CountKind(m, kind) <= 1
  }

  lemma {:induction false} NumberedKinds(rest: seq<Entry>, a: nat, kind: nat)
    requires IsAlloc(kind) && a + |rest| <= 0xFFFF
    ensures CountKind(Numbered(rest, a), kind) <= if kind < ALLOC_MIN + a then 0 else 1
    decreases |rest|
  {
    if rest != [] {
      var b := if IsAlloc(rest[0].kind) then a + 1 else a;
      assert Numbered(rest, a)[1..] == Numbered(rest[1..], b);
      NumberedKinds(rest[1..], b, kind);
    }
  }

  lemma {:induction false} MergedKinds(m1: Entry, rest: seq<Entry>, kind: nat)
    ensures CountKind(Merged(m1, rest), kind) <= CountKind([m1] + rest, kind)
    decreases |rest|
  {
    assert ([m1] + rest)[1..] == rest;
    if rest != [] {
      var m2, tail := rest[0], rest[1..];
      assert ([m1] + tail)[1..] == tail && [m2] + tail == rest;
      MergedKinds(m2, tail, kind);
      MergedKinds(m1, tail, kind);
      assert ([m1] + Merged(m2, tail))[1..] == Merged(m2, tail);
    }
  }

  lemma RenumberedApart(m: seq<Entry>)
    requires m != [] && |m| <= 0xFFFF && !IsAlloc(m[0].kind)
    ensures AllocsApart(Renumbered(m))
  {
    forall kind | IsAlloc(kind)
      ensures CountKind(Renumbered(m), kind) <= 1
    {
      NumberedKinds(m[1..], 0, kind);
      assert Renumbered(m)[1..] == Numbered(m[1..], 0);
    }
  }

  lemma FixedApart(m: seq<Entry>)
    requires m != [] && |m| <= 0xFFFF && !IsAlloc(m[0].kind)
    ensures AllocsApart(Fixed(m))
  {
    RenumberedApart(m);
    forall kind | IsAlloc(kind)
      ensures CountKind(Fixed(m), kind) <= 1
    {
      MergedKinds(m[0], Renumbered(m)[1..], kind);
      assert [m[0]] + Renumbered(m)[1..] == Renumbered(m);
    }
  }

  lemma {:induction false} CountsOne(m: seq<Entry>, i: nat)
    requires i < |m|
    ensures CountKind(m, m[i].kind) >= 1
    decreases |m|
  {
    if i > 0 {
      CountsOne(m[1..], i - 1);
    }
  }

  lemma {:induction false} CountsTwo(m: seq<Entry>, i: nat, j: nat)
    requires i < j < |m| && m[i].kind == m[j].kind
    ensures CountKind(m, m[i].kind) >= 2
    decreases |m|
  {
    if i > 0 {
      CountsTwo(m[1..], i - 1, j - 1);
    } else {
      CountsOne(m[1..], j - 1);
    }
  }

  // ----- Entries by index

  /** The entry in force is the last one with a base that is not above the address. */
  lemma {:induction false} AtIs(m: seq<Entry>, x: nat, k: nat)
    requires Sorted(m) && k < |m| && (k > 0 ==> m[k].base <= x) && (k + 1 < |m| ==> x < m[k + 1].base)
    ensures At(m, x) == m[k]
    decreases k
  {
    if k > 0 {
      var t := m[1..];
      assert forall i | 0 <= i < |t| :: t[i] == m[i + 1];
      assert k > 1 ==> m[1].base <= m[k].base;
      AtIs(t, x, k - 1);
    }
  }

  lemma {:induction false} AtIndex(m: seq<Entry>, x: nat) returns (k: nat)
    requires Sorted(m) && m != [] && m[0].base <= x
    ensures k < |m| && m[k].base <= x && (k + 1 < |m| ==> x < m[k + 1].base) && At(m, x) == m[k]
    decreases |m|
  {
    k := |m| - 1;
    while m[k].base > x
      invariant 0 <= k < |m| && (k + 1 < |m| ==> x < m[k + 1].base)
      decreases k
    {
      k := k - 1;
    }
    AtIs(m, x, k);
  }

  lemma IndexOrder(m: seq<Entry>, x: nat, k: nat, i: nat)
    requires Sorted(m) && k < |m| && m[k].base <= x && (k + 1 < |m| ==> x < m[k + 1].base) && i < |m|
    ensures i <= k <==> m[i].base <= x
  {
    if i <= k {
      assert m[i].base <= m[k].base;
    } else {
      assert m[k + 1].base <= m[i].base;
    }
  }

  // ----- Cutting off the end of a block

  /** The map with a new entry from an address on, up to the end of the block in front of entry i. */
  function Cut(m: seq<Entry>, i: nat, addr: nat, kind: nat): seq<Entry>
    requires 0 < i < |m|
  {
    m[..i] + [m[i - 1].(kind := kind, base := addr)] + m[i..]
  }

  ghost predicate CutFits(m: seq<Entry>, i: nat, addr: nat)
  {
    Covers(m) && 0 < i < |m| && m[i - 1].base <= addr < m[i].base
  }

  lemma CutIs(m: seq<Entry>, i: nat, addr: nat, kind: nat)
    requires 0 < i < |m|
    ensures var t := Cut(m, i, addr, kind);
            && |t| == |m| + 1 && t[i] == m[i - 1].(kind := kind, base := addr)
            && (forall k | 0 <= k < i :: t[k] == m[k])
            && (forall k | i < k < |t| :: t[k] == m[k - 1])
  {
  }

  lemma CutSorted(m: seq<Entry>, i: nat, addr: nat, kind: nat)
    requires CutFits(m, i, addr)
    ensures Covers(Cut(m, i, addr, kind))
  {
    hide Cut;
    var t := Cut(m, i, addr, kind);
    CutIs(m, i, addr, kind);
    forall j, k | 0 <= j < k < |t|
      ensures t[j].base <= t[k].base
    {
      if j == i {
        assert m[i].base <= m[k - 1].base;
      } else if k == i {
        assert m[j].base <= m[i - 1].base;
      }
    }
  }

  lemma CutAt(m: seq<Entry>, i: nat, addr: nat, kind: nat, x: nat)
    requires CutFits(m, i, addr)
    ensures At(Cut(m, i, addr, kind), x) == if addr <= x < m[i].base then m[i - 1].(kind := kind, base := addr) else At(m, x)
    ensures addr <= x < m[i].base ==> At(m, x) == m[i - 1]
  {
    hide Cut, At;
    CutSorted(m, i, addr, kind);
    CutIs(m, i, addr, kind);
    var t := Cut(m, i, addr, kind);
    var k := AtIndex(m, x);
    IndexOrder(m, x, k, i);
    if x < addr {
      AtIs(t, x, k);
    } else if x < m[i].base {
      AtIs(t, x, i);
      AtIs(m, x, i - 1);
    } else {
      AtIs(t, x, k + 1);
    }
  }

  lemma {:induction false} Count4Cut(m: seq<Entry>, i: nat, e: Entry)
    requires i <= |m| && e.base != FOUR_GIB
    ensures Count4(m[..i] + [e] + m[i..]) == Count4(m)
    decreases i
  {
    var t := m[..i] + [e] + m[i..];
    if i == 0 {
      assert t[1..] == m;
    } else {
      Count4Cut(m[1..], i - 1, e);
      assert t[1..] == m[1..][..i - 1] + [e] + m[1..][i - 1..];
    }
  }

  lemma {:induction false} StrictCount4(m: seq<Entry>)
    requires Strict(m)
    ensures Count4(m) <= 1
  {
    if m != [] {
      var t := m[1..];
      assert forall i | 0 <= i < |t| :: t[i] == m[i + 1];
      StrictCount4(t);
      if m[0].base == FOUR_GIB {
        NoneAbove(t);
      }
    }
  }

  // ----- What an allocation does to the map, and what freeing does

  /** A map as the manager keeps it. */
  ghost predicate Kept(m: seq<Entry>)
  {
    && Covers(m) && Strict(m) && |m| < 2048 && !IsAlloc(m[0].kind) && AllocsApart(m)
    && forall k | 0 <= k < |m| :: m[k].flags % 2 == VALID_ENTRY
  }

  /** A map of the manager has at most one entry at 4 GiB, so that fixing it leaves rising bases. */
  lemma KeptHasOne(m: seq<Entry>)
    requires Kept(m)
    ensures Count4(m) <= 1 && Covers(Fixed(m)) && Strict(Fixed(m))
  {
    hide Fixed, Count4;
    StrictCount4(m);
    FixedStrictIff(m);
  }

  lemma {:induction false} MergedHead(m1: Entry, rest: seq<Entry>)
    requires forall k | 0 <= k < |rest| :: rest[k].base != m1.base
    ensures Merged(m1, rest)[0] == m1
    decreases |rest|
  {
    if rest != [] {
      MergedHead(m1, rest[1..]);
    }
  }

  lemma {:induction false} MergedFlags(m1: Entry, rest: seq<Entry>)
    requires m1.flags % 2 == VALID_ENTRY && forall k | 0 <= k < |rest| :: rest[k].flags % 2 == VALID_ENTRY
    ensures forall k | 0 <= k < |Merged(m1, rest)| :: Merged(m1, rest)[k].flags % 2 == VALID_ENTRY
    decreases |rest|
  {
    if rest != [] {
      MergedFlags(m1, rest[1..]);
      MergedFlags(rest[0], rest[1..]);
    }
  }

  /** What fix_memory_map needs to leave a map as the manager keeps it. */
  ghost predicate Fixable(m: seq<Entry>)
  {
    && Covers(m) && Count4(m) <= 1 && |m| < 2048 && !IsAlloc(m[0].kind)
    && (forall k | 0 < k < |m| :: m[k].base > 0)
    && forall k | 0 <= k < |m| :: m[k].flags % 2 == VALID_ENTRY
  }

  lemma FixedHeadAndFlags(m: seq<Entry>)
    requires Fixable(m)
    ensures Fixed(m)[0] == m[0]
    ensures forall k | 0 <= k < |Fixed(m)| :: Fixed(m)[k].flags % 2 == VALID_ENTRY
  {
    hide Sorted, Count4;
    var rest := Renumbered(m)[1..];
    forall k | 0 <= k < |rest|
      ensures rest[k].base != m[0].base && rest[k].flags % 2 == VALID_ENTRY
    {
      NumberedAt(m[1..], 0, k);
      assert rest[k] == Numbered(m[1..], 0)[k] && m[1..][k] == m[k + 1];
    }
    MergedHead(m[0], rest);
    MergedFlags(m[0], rest);
  }

  lemma FixedIsKept(m: seq<Entry>)
    requires Fixable(m)
    ensures Kept(Fixed(m)) && |Fixed(m)| <= |m|
  {
    hide Fixed, Merged, AllocsApart, Strict, Sorted, Renumbered, Count4;
    FixedStrictIff(m);
    FixedApart(m);
    FixedHeadAndFlags(m);
  }

  /** A map with a cut can be fixed. */
  lemma CutFixable(m: seq<Entry>, i: nat, addr: nat, kind: nat)
    requires Kept(m) && CutFits(m, i, addr) && 1 < i && |m| < 2047 && addr < FOUR_GIB
    ensures Fixable(Cut(m, i, addr, kind))
  {
    CutSorted(m, i, addr, kind);
    Count4Cut(m, i, m[i - 1].(kind := kind, base := addr));
    StrictCount4(m);
    hide Cut, Count4, Sorted, AllocsApart;
    CutIs(m, i, addr, kind);
    var t := Cut(m, i, addr, kind);
    assert m[0].base < m[i - 1].base;
    forall k | 0 < k < |t|
      ensures t[k].base > 0
    {
      if k < i {
        assert m[0].base < m[k].base;
      } else if k > i {
        assert m[0].base < m[k - 1].base;
      }
    }
  }

  /** After an allocation the map says something else about exactly the range from the returned address to the
      end of the block. */
  lemma CutMeaning(m: seq<Entry>, i: nat, addr: nat, kind: nat, x: nat)
    requires CutFits(m, i, addr) && |m| < 0xFFFF
    ensures Meaning(At(Fixed(Cut(m, i, addr, kind)), x)) ==
            if addr <= x < m[i].base then Meaning(m[i - 1].(kind := kind)) else Meaning(At(m, x))
  {
    hide Cut, At, Fixed;
    CutSorted(m, i, addr, kind);
    CutIs(m, i, addr, kind);
    FixedMeaning(Cut(m, i, addr, kind));
    CutAt(m, i, addr, kind, x);
  }

  lemma Apart(t: seq<Entry>, i: nat, j: nat)
    requires Fixable(t) && i < |t| && j < |t| && i != j && IsAlloc(Renumbered(t)[i].kind)
    ensures Renumbered(t)[i].kind != Renumbered(t)[j].kind
  {
    hide Renumbered, Sorted, Count4;
    RenumberedApart(t);
    var n := Renumbered(t);
    if n[i].kind == n[j].kind {
      CountsTwo(n, if i < j then i else j, if i < j then j else i);
    }
  }

  /** After fixing, the number of an allocation stands at exactly the addresses of its entry. */
  lemma NumberAt(t: seq<Entry>, i: nat, x: nat)
    requires Fixable(t) && 0 < i && i + 1 < |t| && IsAlloc(t[i].kind)
    ensures IsAlloc(Renumbered(t)[i].kind)
    ensures At(Fixed(t), x).kind == Renumbered(t)[i].kind <==> t[i].base <= x < t[i + 1].base
  {
    hide Count4, Merged, AllocsApart, CountKind;
    var n := Renumbered(t);
    RenumberedSorted(t);
    NumberedAt(t[1..], 0, i - 1);
    NumberedAt(t[1..], 0, i);
    assert n[1..] == Numbered(t[1..], 0);
    assert n[i] == n[1..][i - 1] && n[i + 1] == n[1..][i];
    MergedMeaning(t[0], n[1..], x);
    var j := AtIndex(n, x);
    if t[i].base <= x < t[i + 1].base {
      AtIs(n, x, i);
    } else {
      assert j != i;
      Apart(t, i, j);
    }
  }

  lemma EndOf(r: seq<Entry>, kind: nat, from: nat, to: nat, k: nat)
    requires Kept(r) && IsAlloc(kind) && from < to && k < |r| && r[k].base == from && r[k].kind == kind
    requires forall x: nat :: At(r, x).kind == kind <==> from <= x < to
    ensures k + 1 < |r| && r[k + 1].base == to
  {
    hide CountKind, At;
    if k + 1 == |r| || r[k + 1].base > to {
      AtIs(r, to, k);
    } else if r[k + 1].base < to {
      AtIs(r, r[k + 1].base, k + 1);
      CountsTwo(r, k, k + 1);
    }
  }

  /** An entry whose kind stands at exactly the addresses from `from` to `to` has these bounds. */
  lemma BoundsOf(r: seq<Entry>, kind: nat, from: nat, to: nat) returns (k: nat)
    requires Kept(r) && IsAlloc(kind) && from < to
    requires forall x: nat :: At(r, x).kind == kind <==> from <= x < to
    ensures k + 1 < |r| && r[k].base == from && r[k + 1].base == to && r[k].kind == kind
  {
    hide CountKind, At;
    k := AtIndex(r, from);
    AtIs(r, r[k].base, k);
    assert r[k].base == from;
    EndOf(r, kind, from, to, k);
  }

  /** The entry that the allocation left in the map: it starts at the address and ends with the block. */
  lemma AllocatedEntry(m: seq<Entry>, i: nat, addr: nat) returns (k: nat)
    requires Kept(m) && CutFits(m, i, addr) && 1 < i && |m| < 2047 && addr < FOUR_GIB
    ensures var r := Fixed(Cut(m, i, addr, ALLOC_MIN));
            && 0 < k && k + 1 < |r| && r[k].base == addr && r[k + 1].base == m[i].base && IsAlloc(r[k].kind)
            && Kept(r)
  {
    hide Fixed, Renumbered, At, Cut, AllocsApart, Sorted;
    var t := Cut(m, i, addr, ALLOC_MIN);
    CutIs(m, i, addr, ALLOC_MIN);
    CutFixable(m, i, addr, ALLOC_MIN);
    FixedIsKept(t);
    var r := Fixed(t);
    NumberAt(t, i, 0);
    var kind := Renumbered(t)[i].kind;
    forall x: nat
      ensures At(r, x).kind == kind <==> addr <= x < m[i].base
    {
      NumberAt(t, i, x);
    }
    k := BoundsOf(r, kind, addr, m[i].base);
    assert m[0].base < m[i - 1].base;
  }

  /** An allocation becomes free memory. */
  function Released(m: seq<Entry>, k: nat): seq<Entry>
    requires k < |m|
  {
    m[k := m[k].(kind := NORMAL)]
  }

  lemma ReleasedFixable(m: seq<Entry>, k: nat)
    requires Kept(m) && 0 < k < |m|
    ensures Fixable(Released(m, k))
  {
    var t := Released(m, k);
    assert forall j | 0 <= j < |m| :: t[j].base == m[j].base;
    assert forall j | 0 < j < |m| :: m[0].base < m[j].base;
    StrictCount4(t);
  }

  lemma ReleasedAt(m: seq<Entry>, k: nat, x: nat)
    requires Kept(m) && k < |m|
    ensures At(Released(m, k), x) == if m[k].base <= x && (k + 1 < |m| ==> x < m[k + 1].base) then Released(m, k)[k] else At(m, x)
  {
    hide At, AllocsApart;
    var t := Released(m, k);
    var j := AtIndex(m, x);
    IndexOrder(m, x, j, k);
    if k + 1 < |m| {
      IndexOrder(m, x, j, k + 1);
    }
    AtIs(t, x, j);
  }

  lemma KeptStrict(m: seq<Entry>)
    requires Kept(m)
    ensures Sorted(m) && Covers(m)
  {
  }

  /** free of what was just allocated makes the map say what it said before. */
  lemma ReleaseUndoesCut(m: seq<Entry>, i: nat, addr: nat, k: nat)
    requires Kept(m) && CutFits(m, i, addr) && 1 < i && |m| < 2047 && addr < FOUR_GIB && m[i - 1].kind == NORMAL
    requires var r := Fixed(Cut(m, i, addr, ALLOC_MIN));
             0 < k && k + 1 < |r| && r[k].base == addr && r[k + 1].base == m[i].base && IsAlloc(r[k].kind) && Kept(r)
    ensures SameMeaning(Fixed(Released(Fixed(Cut(m, i, addr, ALLOC_MIN)), k)), m)
  {
    hide Fixed, Cut, At, Kept;
    CutIs(m, i, addr, ALLOC_MIN);
    var r := Fixed(Cut(m, i, addr, ALLOC_MIN));
    ReleasedFixable(r, k);
    FixedMeaning(Released(r, k));
    forall x: nat
      ensures Meaning(At(Released(r, k), x)) == Meaning(At(m, x))
    {
      ReleasedAt(r, k, x);
      CutMeaning(m, i, addr, ALLOC_MIN, x);
      if addr <= x < m[i].base {
        KeptStrict(r);
        AtIs(r, x, k);
        KeptStrict(m);
        AtIs(m, x, i - 1);
      }
    }
  }

  // ----- The manager

  // memmove of the entries behind i, and the zero entry behind them, one place down.
  method MoveDown(memory: array<Entry>, n: nat, i: nat)
    requires i < n < memory.Length && forall k | n <= k < memory.Length :: memory[k] == ZERO
    modifies memory
    ensures memory[..n - 1] == old(memory[..n])[..i] + old(memory[..n])[i + 1..]
    ensures forall k | n - 1 <= k < memory.Length :: memory[k] == ZERO
  {
    for k := i to n
      invariant forall q | 0 <= q < memory.Length && !(i <= q < k) :: memory[q] == old(memory[q])
      invariant forall q | i <= q < k :: memory[q] == old(memory[q + 1])
    {
      memory[k] := memory[k + 1];
    }
  }

  /** The map up to the first entry, but for the one in front, that starts at 0. */
  ghost predicate RisesTo(m: seq<Entry>, n: nat)
  {
    && 1 <= n < |m| && m[0].base == 0 && m[n].base == 0
    && forall k | 0 < k < n :: m[k - 1].base < m[k].base
  }

  lemma RisesFurther(m: seq<Entry>, n: nat, end: nat)
    requires n + 1 < |m| && (n == 0 || m[n].base != 0) && forall k | 0 < k < n :: m[k - 1].base < m[k].base
    ensures RisesTo(m, end) ==> n < end && (m[n + 1].base == 0 || m[n].base < m[n + 1].base)
  {
    forall k | 0 < k < n
      ensures m[k].base > 0
    {
      assert m[k - 1].base < m[k].base;
    }
    if RisesTo(m, end) {
      assert n + 1 < end ==> m[n + 1 - 1].base < m[n + 1].base;
    }
  }

  lemma {:induction false} RisingIsStrict(m: seq<Entry>, n: nat, k: nat)
    requires RisesTo(m, n) && k <= n
    ensures Strict(m[..k])
  {
    if k > 1 {
      RisingIsStrict(m, n, k - 1);
      assert m[..k - 1] == m[..k][..k - 1];
      assert m[..k - 1][k - 2] == m[k - 2];
    }
  }

  /** The bases in memory_init: a map is refused unless they rise strictly up to the first one at 0, so that no two of
      these entries are at 4 GiB. */
  method CheckBases(memory: array<Entry>, max: nat) returns (ok: bool, n: nat)
    requires max + 1 < memory.Length && forall k | 0 <= k < memory.Length :: memory[k].base < ADDRESSES
    ensures ok <==> exists e: nat :: e <= max && RisesTo(memory[..], e)
    ensures ok ==> n <= max && RisesTo(memory[..], n) && Strict(memory[..n]) && Count4(memory[..n]) <= 1
  {
    hide Strict, Count4;
    n := 0;
    if memory[0].base != 0 {
      return false, n;
    }
    while n == 0 || memory[n].base != 0
      invariant 0 <= n <= max
      invariant forall k | 0 < k < n :: memory[k - 1].base < memory[k].base
      invariant n > 0 ==> memory[n].base == 0 || memory[n - 1].base < memory[n].base
      decreases max - n
    {
      var b, e := memory[n].base, memory[n + 1].base;
      if b > (e + ADDRESSES - 1) % ADDRESSES || n == max {
        forall end: nat | end <= max
          ensures !RisesTo(memory[..], end)
        {
          RisesFurther(memory[..], n, end);
        }
        return false, n;
      }
      n := n + 1;
    }
    assert RisesTo(memory[..], n);
    RisingIsStrict(memory[..], n, n);
    StrictCount4(memory[..n]);
    return true, n;
  }

  /** Behind the first entry at 0, entries with any flags belong to the map too, whatever their bases are. */
  ghost predicate FlaggedTo(m: seq<Entry>, n: nat, e: nat)
  {
    && n <= e < |m| && m[e].flags == 0 && m[e].base == 0
    && forall k | n <= k < e :: m[k].flags != 0
  }

  lemma PositiveInside(m: seq<Entry>, n: nat)
    requires RisesTo(m, n)
    ensures forall k | 0 < k < n :: m[k].base > 0
  {
    forall k | 0 < k < n
      ensures m[k].base > 0
    {
      assert m[k - 1].base < m[k].base;
    }
  }

  lemma OneEnd(m: seq<Entry>, n: nat, k: nat)
    requires RisesTo(m, n) && RisesTo(m, k)
    ensures k == n
  {
    PositiveInside(m, n);
    PositiveInside(m, k);
  }

  lemma StrictUpTo(m: seq<Entry>, n: nat, e: nat)
    requires RisesTo(m, n) && FlaggedTo(m, n, e)
    ensures Strict(m[..e]) <==> m[n].flags == 0
  {
    if n == e {
      RisingIsStrict(m, n, n);
    } else {
      assert m[..e][0].base == 0 == m[..e][n].base;
    }
  }

  /** The bases and flags in memory_init.  The map that is accepted rises strictly exactly if there is no flagged entry
      behind the first one at 0. */
  method CheckEntries(memory: array<Entry>, max: nat) returns (ok: bool, entries: nat, ghost n: nat)
    requires max + 1 < memory.Length && forall k | 0 <= k < memory.Length :: memory[k].base < ADDRESSES
    ensures ok <==> exists k: nat, e: nat :: k <= e <= max && RisesTo(memory[..], k) && FlaggedTo(memory[..], k, e)
    ensures ok ==>
              && n <= entries <= max && RisesTo(memory[..], n) && FlaggedTo(memory[..], n, entries)
              && (Strict(memory[..entries]) <==> memory[n].flags == 0)
  {
    hide Strict, RisesTo;
    entries := 0;
    var rises;
    rises, entries := CheckBases(memory, max);
    n := entries;
    if !rises {
      return false, entries, n;
    }
    forall k: nat | RisesTo(memory[..], k)
      ensures k == n
    {
      OneEnd(memory[..], n, k);
    }
    while memory[entries].flags != 0
      invariant n <= entries <= max
      invariant forall k | n <= k < entries :: memory[k].flags != 0
      decreases max - entries
    {
      if entries == max {
        return false, entries, n;
      }
      entries := entries + 1;
    }
    if memory[entries].base != 0 {
      return false, entries, n;
    }
    assert FlaggedTo(memory[..], n, entries);
    StrictUpTo(memory[..], n, entries);
    return true, entries, n;
  }

  /** Such a map: it is accepted with two entries at 0. */
  lemma FlaggedBehind()
    ensures var m := [Entry(NORMAL, 1, 0, 0), Entry(NORMAL, 1, 0x1000, 0), Entry(NORMAL, 1, 0, 0), ZERO];
            RisesTo(m, 2) && FlaggedTo(m, 2, 3) && !Strict(m[..3])
  {
    var m := [Entry(NORMAL, 1, 0, 0), Entry(NORMAL, 1, 0x1000, 0), Entry(NORMAL, 1, 0, 0), ZERO];
    StrictUpTo(m, 2, 3);
  }

  /** A strictly rising map from 0 on, with zeros behind it, is accepted as it is. */
  lemma StrictIsAccepted(m: seq<Entry>, n: nat)
    requires 0 < n < |m| && Strict(m[..n]) && m[0].base == 0 && m[n] == ZERO
    ensures RisesTo(m, n) && FlaggedTo(m, n, n)
  {
    forall k | 0 < k < n
      ensures m[k - 1].base < m[k].base
    {
      assert m[..n][k - 1].base < m[..n][k].base;
    }
  }

  ghost predicate HasAllocation(m: seq<Entry>, addr: nat)
  {
    exists k :: 0 < k < |m| && m[k].base == addr && IsAlloc(m[k].kind)
  }

  /** The highest multiple of the alignment from which `size` bytes end at or below an address; an alignment of
      zero is none. */
  function TopAddr(e: nat, size: nat, alignment: nat): int
    requires size <= e
  {
    e - size - if alignment != 0 then (e - size) % alignment else 0
  }

  /** The highest aligned address from which a block of the size ends in time. */
  lemma TopAddrIs(e: nat, size: nat, alignment: nat, a: int)
    requires size <= e && alignment > 0
    ensures TopAddr(e, size, alignment) % alignment == 0 && 0 <= TopAddr(e, size, alignment) <= e - size
    ensures a % alignment == 0 && a <= e - size ==> a <= TopAddr(e, size, alignment)
    ensures TopAddr(e, size, 0) == e - size
  {
    var x, r := e - size, TopAddr(e, size, alignment);
    assert r == x / alignment * alignment;
    DivUnique(r, alignment, x / alignment, 0);
    if a % alignment == 0 && a > r {
      assert a == a / alignment * alignment;
      Multiple(a / alignment - x / alignment - 1, alignment);
      assert (a / alignment - x / alignment - 1) * alignment == a - r - alignment;
    }
  }

  /** The block in front of entry i is free and may be cut: it ends below 4 GiB and not behind the map. */
  ghost predicate Cuttable(m: seq<Entry>, mapAddr: nat, alignment: nat, size: nat, i: nat)
  {
    && 1 < i < |m| && m[i].base < FOUR_GIB && m[i].base <= mapAddr
    && m[i - 1].kind == NORMAL && m[i - 1].flags / NO_INIT_ALLOC % 2 == 0
    && size <= m[i].base - m[i - 1].base && m[i - 1].base <= TopAddr(m[i].base, size, alignment)
  }

  /** The highest block that may be cut. */
  ghost predicate Topmost(m: seq<Entry>, mapAddr: nat, alignment: nat, size: nat, i: nat)
    ensures Topmost(m, mapAddr, alignment, size, i) ==> 1 < i < |m| && size <= m[i].base
  {
    Cuttable(m, mapAddr, alignment, size, i) && forall k: nat | i < k < |m| :: !Cuttable(m, mapAddr, alignment, size, k)
  }

  /** The highest block that may be cut is too far below the map for code that is linked to the program. */
  ghost predicate TooFar(m: seq<Entry>, mapAddr: nat, alignment: nat, size: nat)
  {
    exists k: nat :: Topmost(m, mapAddr, alignment, size, k) && mapAddr - TopAddr(m[k].base, size, alignment) > 0x7F00_0000
  }

  lemma OneTopmost(m: seq<Entry>, mapAddr: nat, alignment: nat, size: nat, i: nat)
    requires Topmost(m, mapAddr, alignment, size, i)
    ensures forall k: nat | Topmost(m, mapAddr, alignment, size, k) :: k == i
  {
    hide Cuttable;
    forall k: nat | Topmost(m, mapAddr, alignment, size, k)
      ensures k == i
    {
      assert Cuttable(m, mapAddr, alignment, size, k);
    }
  }

  lemma CuttableFacts(m: seq<Entry>, mapAddr: nat, alignment: nat, size: nat, i: nat)
    requires Kept(m) && Cuttable(m, mapAddr, alignment, size, i) && size > 0
    ensures 1 < i < |m| && m[i - 1].kind == NORMAL && m[i].base < FOUR_GIB && size <= m[i].base
    ensures var addr := TopAddr(m[i].base, size, alignment);
            && addr > 0 && addr + size <= m[i].base <= mapAddr && CutFits(m, i, addr)
            && (alignment > 0 ==> addr % alignment == 0)
  {
    hide AllocsApart;
    assert m[0].base < m[i - 1].base;
    if alignment > 0 {
      var v := m[i].base - size;
      assert v == v / alignment * alignment + v % alignment;
      DivUnique(v - v % alignment, alignment, v / alignment, 0);
    }
  }

  class MemoryMap {
    const memory: array<Entry>
    const mapAddr: nat           // the address of the map itself
    var entries: nat
    var disabled: bool

    ghost predicate Shape()
      reads this, memory
    {
      && memory.Length == 2048 && 1 <= entries < 2048
      && forall k | entries <= k < 2048 :: memory[k] == ZERO
    }

    ghost function Map(): (m: seq<Entry>)
      requires Shape()
      reads this, memory
      ensures m != []
    {
      memory[..entries]
    }

    ghost predicate Valid()
      reads this, memory
    {
      Shape() && Kept(Map())
    }

    static lemma NumberStart(m: seq<Entry>)
      requires m != []
      ensures m[..1] + Numbered(m[1..], 0) == Renumbered(m) && m == m[..1] + m[1..]
    {
      hide Numbered;
    }

    static lemma NumberStep(done: seq<Entry>, rest: seq<Entry>, a: nat)
      requires rest != []
      ensures var e := if IsAlloc(rest[0].kind) then rest[0].(kind := ALLOC_MIN + a) else rest[0];
              done + Numbered(rest, a) == (done + [e]) + Numbered(rest[1..], if IsAlloc(rest[0].kind) then a + 1 else a)
    {
      var e := if IsAlloc(rest[0].kind) then rest[0].(kind := ALLOC_MIN + a) else rest[0];
      var tail := Numbered(rest[1..], if IsAlloc(rest[0].kind) then a + 1 else a);
      assert done + ([e] + tail) == (done + [e]) + tail;
    }

    static lemma NumberEnd(a: nat)
      ensures Numbered([], a) == []
    {
    }

    // memcpy of an entry onto another.
    method Overwrite(i: nat, e: Entry)
      requires Shape() && i < entries
      modifies memory
      ensures Shape() && Map() == old(Map())[i := e]
    {
      memory[i] := e;
    }

    lemma ShapeFacts()
      requires Shape()
      ensures memory.Length == 2048 && 1 <= entries < 2048 && |Map()| == entries
      ensures forall k | 0 <= k < entries :: Map()[k] == memory[k]
    {
    }

    // The first loop of fix_memory_map.
    method NumberAllocations()
      requires Shape()
      modifies memory
      ensures Shape() && Map() == Renumbered(old(Map()))
    {
      hide Map, Shape, Numbered, Renumbered;
      ShapeFacts();
      ghost var done, rest := Map()[..1], Map()[1..];
      ghost var goal := Renumbered(Map());
      NumberStart(Map());
      var a := 0;
      for i := 1 to entries
        invariant 0 <= a && Shape() && |done| == i && Map() == done + rest && |Map()| == entries
        invariant done + Numbered(rest, a) == goal
      {
        ShapeFacts();
        NumberStep(done, rest, a);
        assert memory[i] == Map()[i] == rest[0];
        var t := memory[i].kind;
        ghost var e := rest[0];
        if ALLOC_MIN <= t <= ALLOC_MAX {
          e := e.(kind := ALLOC_MIN + a);
          Overwrite(i, memory[i].(kind := ALLOC_MIN + a));
          a := a + 1;
        }
        done, rest := done + [e], rest[1..];
        assert Map() == done + rest;
        ShapeFacts();
      }
      ShapeFacts();
      NumberEnd(a);
      assert rest == [];
    }

    // An entry leaves the map.
    method Remove(i: nat)
      requires Shape() && 1 <= i < entries
      modifies this`entries, memory
      ensures Shape() && entries == old(entries) - 1 && disabled == old(disabled)
      ensures Map() == old(Map())[..i] + old(Map())[i + 1..]
    {
      MoveDown(memory, entries, i);
      entries := entries - 1;
    }

    static lemma MergedNothing(cur: Entry)
      ensures Merged(cur, []) == [cur]
    {
    }

    // One step of the pass.
    static lemma MergedStep(head: seq<Entry>, cur: Entry, rest: seq<Entry>)
      requires rest != []
      ensures var m2 := rest[0];
              head + Merged(cur, rest) ==
              if m2.base == FOUR_GIB || (m2.base != cur.base && !Repeats(cur, m2)) then (head + [cur]) + Merged(m2, rest[1..])
              else head + Merged(if m2.base == cur.base then m2 else cur, rest[1..])
    {
      hide Repeats;
      assert head + ([cur] + Merged(rest[0], rest[1..])) == (head + [cur]) + Merged(rest[0], rest[1..]);
    }

    // The second loop of fix_memory_map.
    method MergeEntries()
      requires Shape()
      modifies this`entries, memory
      ensures Shape() && disabled == old(disabled)
      ensures Map() == Merged(old(Map())[0], old(Map())[1..])
    {
      hide Merged, Map, Shape;
      ShapeFacts();
      ghost var head: seq<Entry>, cur, rest := [], Map()[0], Map()[1..];
      ghost var goal := Merged(cur, rest);
      assert head + goal == goal;
      var i := 1;
      while i < entries
        invariant 1 <= i && Shape() && disabled == old(disabled)
        invariant Map() == head + [cur] + rest && |head| == i - 1 && |rest| == entries - i
        invariant head + Merged(cur, rest) == goal
        decreases entries - i
      {
        ShapeFacts();
        MergedStep(head, cur, rest);
        var m1, m2 := memory[i - 1], memory[i];
        assert m1 == Map()[i - 1] == cur && m2 == Map()[i] == rest[0];
        if m2.base == FOUR_GIB {
          head, cur, rest := head + [cur], rest[0], rest[1..];
          assert head + [cur] + rest == Map();
          i := i + 1;
          continue;
        }
        if m1.base == m2.base {
          Overwrite(i - 1, m2);
          m1 := m2;
          cur := m2;
        }
        if m1.kind == m2.kind && m1.flags == m2.flags {
          if m1.other == m2.other {
            ghost var m := Map();
            Remove(i);
            ShapeFacts();
            assert m[..i] == head + [cur] && m[i + 1..] == rest[1..];
            rest := rest[1..];
            continue;
          }
        }
        head, cur, rest := head + [cur], rest[0], rest[1..];
        assert head + [cur] + rest == Map();
        i := i + 1;
      }
      ShapeFacts();
      MergedNothing(cur);
    }

    /** fix_memory_map */
    method Fix()
      requires Shape()
      modifies this`entries, memory
      ensures Shape() && disabled == old(disabled)
      ensures Map() == Fixed(old(Map()))
    {
      NumberAllocations();
      MergeEntries();
    }

    /** A map as the loader hands it over, in an array that is zero behind it. */
    constructor (map_: array<Entry>, n: nat, at: nat)
      requires map_.Length == 2048 && 1 <= n < 2048 && (forall k | n <= k < 2048 :: map_[k] == ZERO) && Kept(map_[..n])
      ensures Valid() && memory == map_ && entries == n && mapAddr == at && !disabled
    {
      memory, entries, mapAddr, disabled := map_, n, at, false;
    }

    lemma MapSorted()
      requires Valid()
      ensures Sorted(Map()) && forall k | 0 < k < |Map()| :: Map()[k].base > 0
    {
      hide AllocsApart;
      forall k | 0 < k < |Map()|
        ensures Map()[k].base > 0
      {
        assert Map()[0].base < Map()[k].base;
      }
    }

    // The search of memory_aligned_alloc, from the top.
    method FindBlock(alignment: nat, size: nat) returns (addr: nat, i: nat)
      requires Valid() && size > 0
      ensures addr == 0 <==> forall k: nat | k < |Map()| :: !Cuttable(Map(), mapAddr, alignment, size, k)
      ensures addr != 0 ==>
                Topmost(Map(), mapAddr, alignment, size, i) && addr == TopAddr(Map()[i].base, size, alignment)
      ensures i < |Map()|
    {
      hide Kept;
      i := entries - 1;
      ShapeFacts();
      MapSorted();
      while i > 1
        invariant i < entries
        invariant forall k: nat | i < k < |Map()| :: !Cuttable(Map(), mapAddr, alignment, size, k)
      {
        assert Map()[i] == memory[i] && Map()[i - 1] == memory[i - 1];
        assert Map()[i - 1].base > 0;
        if memory[i].base < FOUR_GIB && memory[i].base <= mapAddr {
          var b, e := memory[i - 1].base, memory[i].base;
          if memory[i - 1].kind == NORMAL && size <= e - b && memory[i - 1].flags / NO_INIT_ALLOC % 2 == 0 {
            var remainder := if alignment != 0 then (e - size) % alignment else 0;
            if size + remainder <= e - b {
              assert Cuttable(Map(), mapAddr, alignment, size, i);
              return e - size - remainder, i;
            }
          }
        }
        i := i - 1;
      }
      return 0, i;
    }

    /** The kind of the new block: an allocation, or memory for the kernel once the manager is disabled. */
    function NewKind(addr: nat, end: nat): nat
      reads this`disabled
    {
      if !disabled then ALLOC_MIN
      else if addr < 0x1000_0000 && end % 0x0040_0000 == 0 then KERNEL
      else KERNEL_RESERVED
    }

    static lemma InsertedIsCut(m: seq<Entry>, t: seq<Entry>, i: nat, addr: nat, kind: nat)
      requires 0 < i < |m| && |t| == |m| + 1
      requires forall q | 0 <= q < i :: t[q] == m[q]
      requires forall q | i < q < |t| :: t[q] == m[q - 1]
      requires t[i] == m[i - 1].(kind := kind, base := addr)
      ensures t == Cut(m, i, addr, kind)
    {
    }

    // The two memmoves of memory_aligned_alloc, and the new entry.
    method Insert(i: nat, addr: nat, kind: nat)
      requires Shape() && 0 < i < entries < 2047
      modifies this`entries, memory
      ensures Shape() && disabled == old(disabled)
      ensures Map() == Cut(old(Map()), i, addr, kind)
    {
      var k := entries;
      while k > i
        modifies memory
        invariant i <= k <= entries
        invariant forall q | 0 <= q < 2048 && !(k < q <= entries) :: memory[q] == old(memory[q])
        invariant forall q | k < q <= entries :: memory[q] == old(memory[q - 1])
      {
        memory[k] := memory[k - 1];
        k := k - 1;
      }
      memory[i] := memory[i - 1].(kind := kind, base := addr);
      entries := entries + 1;
      InsertedIsCut(old(Map()), Map(), i, addr, kind);
    }

    /** memory_aligned_alloc: the end of the highest free block that fits changes its kind, on exactly the range
        from the result to the end of that block. */
    method AlignedAlloc(alignment: nat, size: nat) returns (addr: nat, ghost i: nat)
      requires Valid()
      modifies this`entries, memory
      ensures Valid() && disabled == old(disabled)
      ensures addr == 0 ==> Map() == old(Map())
      ensures addr == 0 <==>
              || alignment > 0x0040_0000 || size == 0 || size >= 0x7FFF_FFFF
              || (forall k: nat | k < |old(Map())| :: !Cuttable(old(Map()), mapAddr, alignment, size, k))
              || |old(Map())| >= 2040
              || (!disabled && TooFar(old(Map()), mapAddr, alignment, size))
      ensures addr != 0 ==>
                var m := old(Map());
                && Topmost(m, mapAddr, alignment, size, i) && addr == TopAddr(m[i].base, size, alignment)
                && Map() == Fixed(Cut(m, i, addr, NewKind(addr, m[i].base)))
                && forall x: nat :: Meaning(At(Map(), x)) ==
                     if addr <= x < m[i].base then Meaning(m[i - 1].(kind := NewKind(addr, m[i].base))) else Meaning(At(m, x))
    {
      hide Kept, Fixed, Cut, At, Meaning, Map, Shape, TopAddr, Cuttable;
      i := 0;
      if alignment > 0x0040_0000 || size == 0 || size >= 0x7FFF_FFFF {
        return 0, 0;
      }
      var at;
      addr, at := FindBlock(alignment, size);
      i := at;
      ShapeFacts();
      if addr == 0 || entries <= at || entries >= 2040 {
        return 0, i;
      }
      ghost var m := Map();
      CuttableFacts(m, mapAddr, alignment, size, i);
      OneTopmost(m, mapAddr, alignment, size, i);
      if !disabled {
        if addr >= mapAddr || mapAddr - addr > 0x7F00_0000 {
          return 0, i;
        }
      }
      var end, kind := memory[at].base, NewKind(addr, memory[at].base);
      CutFixable(m, i, addr, kind);
      FixedIsKept(Cut(m, i, addr, kind));
      forall x: nat
        ensures Meaning(At(Fixed(Cut(m, i, addr, kind)), x)) ==
                if addr <= x < m[i].base then Meaning(m[i - 1].(kind := kind)) else Meaning(At(m, x))
      {
        CutMeaning(m, i, addr, kind, x);
      }
      Insert(at, addr, kind);
      Fix();
    }

    static lemma KeptFixable(m: seq<Entry>)
      requires Kept(m)
      ensures Fixable(m)
    {
      StrictCount4(m);
      assert forall j | 0 < j < |m| :: m[0].base < m[j].base;
    }

    /** free: the allocation that starts at the address becomes free memory; any other address changes nothing
        but is a reason to fix the map. */
    method Free(addr: nat) returns (ghost k: nat)
      requires Valid()
      modifies this`entries, memory
      ensures Valid() && disabled == old(disabled)
      ensures addr == 0 ==> Map() == old(Map())
      ensures addr != 0 && HasAllocation(old(Map()), addr) ==>
                && 0 < k < |old(Map())| && old(Map())[k].base == addr && IsAlloc(old(Map())[k].kind)
                && Map() == Fixed(Released(old(Map()), k))
      ensures addr != 0 && !HasAllocation(old(Map()), addr) ==> Map() == Fixed(old(Map()))
    {
      hide Fixed;
      ghost var m := Map();
      k := 0;
      if addr == 0 {
        return;
      }
      var i := 1;
      while memory[i].flags % 2 == VALID_ENTRY
        invariant 1 <= i <= entries
        invariant forall j | 0 < j < i :: !(m[j].base == addr && IsAlloc(m[j].kind))
        decreases entries - i
      {
        assert i < entries;
        if memory[i].base == addr {
          var t := memory[i].kind;
          if ALLOC_MIN <= t <= ALLOC_MAX {
            k := i;
            memory[i] := memory[i].(kind := NORMAL);
            assert Map() == Released(m, k);
            ReleasedFixable(m, k);
            FixedIsKept(Released(m, k));
            Fix();
            return;
          }
        }
        i := i + 1;
      }
      assert i == entries;
      KeptFixable(m);
      FixedIsKept(m);
      Fix();
    }

    static lemma OnlyOne(m: seq<Entry>, j: nat, k: nat)
      requires Kept(m) && j < |m| && k < |m| && m[j].base == m[k].base
      ensures j == k
    {
      hide AllocsApart;
      assert !(j < k) && !(k < j);
    }

    /** free right after an allocation: the map says again what it said before, about every address. */
    method AllocThenFree(alignment: nat, size: nat) returns (addr: nat)
      requires Valid() && !disabled
      modifies this`entries, memory
      ensures Valid() && SameMeaning(Map(), old(Map()))
    {
      hide Kept, Fixed, Cut, At, Meaning, Map, Shape, TopAddr, Cuttable, Released;
      ghost var m := Map();
      ghost var i;
      addr, i := AlignedAlloc(alignment, size);
      if addr != 0 {
        ShapeFacts();
        CuttableFacts(m, mapAddr, alignment, size, i);
        ghost var k := AllocatedEntry(m, i, addr);
        ghost var r, j := Map(), 0;
        assert r[k].base == addr && IsAlloc(r[k].kind);
        j := Free(addr);
        OnlyOne(r, j, k);
        ReleaseUndoesCut(m, i, addr, k);
      }
    }
  }
}
