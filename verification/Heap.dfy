/** The kernel heap (kernel/base/heap.c): a list of block boundaries, each with a used bit, that lies in front of
    the heap it describes and grows into it.
 */
module KernelHeap {
  import opened Machine
  import opened Arithmetic

  const POWERS: set<nat> := {1, 2, 4, 8, 0x10, 0x20, 0x40, 0x80, 0x100, 0x200, 0x400, 0x800, 0x1000, 0x2000}

  // ----- The list of boundaries

  // The lowest bit of an entry is the used bit of the block that starts there.
  predicate Used(v: nat)
  {
    v % 2 == 1
  }

  function Addr(v: nat): nat
  {
    v - v % 2
  }

  /** The addresses of the boundaries increase, and each is a multiple of 16. */
  ghost predicate Ordered(m: seq<nat>)
  {
    && |m| >= 2
    && (forall i | 0 <= i < |m| :: Addr(m[i]) % 16 == 0)
    && (forall i, j | 0 <= i < j < |m| :: Addr(m[i]) < Addr(m[j]))
    && !Used(m[|m| - 1])
  }

  /** No two free blocks are neighbours. */
  ghost predicate Coalesced(m: seq<nat>)
  {
    forall i | 0 < i < |m| - 1 :: Used(m[i]) || Used(m[i - 1])
  }

  ghost predicate WellFormed(m: seq<nat>)
  {
    Ordered(m) && Coalesced(m)
  }

  /** The blocks in use, from where to where. */
  ghost function Live(m: seq<nat>): set<(nat, nat)>
  {
    set i | 0 <= i < |m| - 1 && Used(m[i]) :: (Addr(m[i]), Addr(m[i + 1]))
  }

  lemma LiveAt(m: seq<nat>, i: nat)
    requires i < |m| - 1 && Used(m[i])
    ensures (Addr(m[i]), Addr(m[i + 1])) in Live(m)
  {
  }

  lemma LiveIndex(m: seq<nat>, block: (nat, nat)) returns (i: nat)
    requires block in Live(m)
    ensures i < |m| - 1 && Used(m[i]) && block == (Addr(m[i]), Addr(m[i + 1]))
  {
    i :| 0 <= i < |m| - 1 && Used(m[i]) && block == (Addr(m[i]), Addr(m[i + 1]));
  }

  /** Blocks in use are aligned, lie in the heap and do not overlap. */
  lemma LiveDisjoint(m: seq<nat>, x: (nat, nat), y: (nat, nat))
    requires Ordered(m) && x in Live(m) && y in Live(m)
    ensures Addr(m[0]) <= x.0 < x.1 <= Addr(m[|m| - 1]) && x.0 % 16 == 0
    ensures x == y || x.1 <= y.0 || y.1 <= x.0
  {
    var i := LiveIndex(m, x);
    var j := LiveIndex(m, y);
    if i < j {
      assert i + 1 == j || Addr(m[i + 1]) < Addr(m[j]);
    } else if j < i {
      assert j + 1 == i || Addr(m[j + 1]) < Addr(m[i]);
    }
    assert 0 < i ==> Addr(m[0]) < Addr(m[i]);
    assert i + 1 < |m| - 1 ==> Addr(m[i + 1]) < Addr(m[|m| - 1]);
  }

  /** The blocks in use without the first boundary. */
  lemma LiveTail(m: seq<nat>)
    requires Ordered(m) && |m| > 2
    ensures Live(m[1..]) == Live(m) - {(Addr(m[0]), Addr(m[1]))}
    ensures Ordered(m[1..])
  {
    var t := m[1..];
    forall x | x in Live(m) && x != (Addr(m[0]), Addr(m[1]))
      ensures x in Live(t)
    {
      var i := LiveIndex(m, x);
      assert i > 0;
      LiveAt(t, i - 1);
      assert t[i - 1] == m[i] && t[i] == m[i + 1];
    }
    forall x | x in Live(t)
      ensures x in Live(m) && x != (Addr(m[0]), Addr(m[1]))
    {
      var i := LiveIndex(t, x);
      LiveAt(m, i + 1);
      assert Addr(m[0]) < Addr(m[i + 1]);
    }
  }

  /** Where the first block in use may start. */
  lemma LiveFrom(m: seq<nat>, x: (nat, nat))
    requires Ordered(m) && x in Live(m)
    ensures Addr(m[0]) <= x.0 && (x.0 == Addr(m[0]) ==> Used(m[0]) && x.1 == Addr(m[1]))
    ensures !Used(m[0]) ==> |m| > 2 && Addr(m[1]) <= x.0
  {
    var i := LiveIndex(m, x);
    assert 0 < i ==> Addr(m[0]) < Addr(m[i]);
    assert 1 < i ==> Addr(m[1]) < Addr(m[i]);
  }

  lemma AtLeastTwo(m: seq<nat>)
    requires Ordered(m)
    ensures |m| >= 2
  {
  }

  lemma TailCoalesced(m: seq<nat>)
    requires Coalesced(m) && |m| > 0
    ensures Coalesced(m[1..])
  {
    var t := m[1..];
    forall i | 0 < i < |t| - 1
      ensures Used(t[i]) || Used(t[i - 1])
    {
      assert t[i] == m[i + 1] && t[i - 1] == m[i];
    }
  }

  lemma SameFirst(m: seq<nat>, n: seq<nat>)
    requires WellFormed(m) && WellFormed(n) && Live(m) == Live(n) && Addr(m[0]) == Addr(n[0])
    ensures Used(m[0]) ==> Used(n[0]) && Addr(m[1]) == Addr(n[1])
  {
    if Used(m[0]) {
      LiveAt(m, 0);
      LiveFrom(n, (Addr(m[0]), Addr(m[1])));
    }
  }

  // Behind a free block comes a block in use, or the end.
  lemma SecondFrom(m: seq<nat>, n: seq<nat>)
    requires WellFormed(m) && WellFormed(n) && Live(m) == Live(n) && !Used(m[0]) && !Used(n[0])
    requires Addr(m[|m| - 1]) == Addr(n[|n| - 1])
    ensures |m| > 2 ==> |n| > 2 && Addr(n[1]) <= Addr(m[1])
  {
    if |m| > 2 {
      assert Used(m[1]);
      LiveAt(m, 1);
      LiveFrom(n, (Addr(m[1]), Addr(m[2])));
    }
  }

  lemma SameSecond(m: seq<nat>, n: seq<nat>)
    requires WellFormed(m) && WellFormed(n) && Live(m) == Live(n) && m[0] == n[0]
    requires Addr(m[|m| - 1]) == Addr(n[|n| - 1])
    ensures Addr(m[1]) == Addr(n[1]) && (|m| == 2 <==> |n| == 2)
    ensures |m| == 2 ==> m == n
  {
    if Used(m[0]) {
      SameFirst(m, n);
      assert |m| > 2 ==> Addr(m[1]) < Addr(m[|m| - 1]);
      assert |n| > 2 ==> Addr(n[1]) < Addr(n[|n| - 1]);
    } else {
      SecondFrom(m, n);
      SecondFrom(n, m);
    }
    if |m| == 2 {
      assert !Used(m[1]) && !Used(n[1]);
    }
  }

  /** The list is determined by the blocks in use: same bounds and same blocks, same list. */
  lemma {:induction false} LiveDetermines(m: seq<nat>, n: seq<nat>)
    requires WellFormed(m) && WellFormed(n) && Live(m) == Live(n)
    requires Addr(m[0]) == Addr(n[0]) && Addr(m[|m| - 1]) == Addr(n[|n| - 1])
    ensures m == n
    decreases |m|
  {
    hide Live, Ordered, Coalesced;
    AtLeastTwo(m);
    AtLeastTwo(n);
    SameFirst(m, n);
    SameFirst(n, m);
    assert m[0] == n[0];
    SameSecond(m, n);
    if |m| > 2 {
      LiveTail(m);
      LiveTail(n);
      TailCoalesced(m);
      TailCoalesced(n);
      LiveDetermines(m[1..], n[1..]);
      assert m == [m[0]] + m[1..] && n == [n[0]] + n[1..];
    }
  }

  // ----- Finding room

  function AtLeast16(alignment: nat): nat
  {
    if alignment < 0x10 then 0x10 else alignment
  }

  ghost predicate Holds(b: nat, e: nat, alignment: nat, size: nat, a: nat)
    requires alignment > 0
  {
    a % alignment == 0 && b <= a && a + size <= e
  }

  ghost predicate HasRoom(b: nat, e: nat, alignment: nat, size: nat)
    requires alignment > 0
  {
    exists a: nat :: Holds(b, e, alignment, size, a)
  }

  /** A free block holds a range of this size at a multiple of the alignment. */
  ghost predicate Fits(m: seq<nat>, k: nat, alignment: nat, size: nat)
    requires alignment > 0
  {
    && k < |m| - 1 && !Used(m[k])
    && HasRoom(Addr(m[k]), Addr(m[k + 1]), alignment, size)
  }

  /** The highest such range below an address. */
  function TopFit(e: nat, size: nat, alignment: nat): nat
    requires alignment > 0 && size <= e
  {
    e - size - (e - size) % alignment
  }

  lemma TopFitIsHighest(b: nat, e: nat, alignment: nat, size: nat)
    requires alignment > 0 && size <= e
    ensures var a := TopFit(e, size, alignment);
            && a % alignment == 0 && a + size <= e
            && (b <= a ==> Holds(b, e, alignment, size, a))
            && forall x: nat :: Holds(b, e, alignment, size, x) ==> x <= a
  {
    var v := e - size;
    var q, r := v / alignment, v % alignment;
    assert v == q * alignment + r;
    DivUnique(v - r, alignment, q, 0);
    forall x: nat | Holds(b, e, alignment, size, x)
      ensures x <= v - r
    {
      assert x == x / alignment * alignment;
      assert v - x == (q - x / alignment) * alignment + r;
      Multiple(q - x / alignment, alignment);
    }
  }

  lemma AlignedTo16(alignment: nat, a: nat)
    requires alignment in POWERS && alignment >= 0x10 && a % alignment == 0
    ensures a % 16 == 0
  {
  }

  lemma HoldsBound(b: nat, e: nat, alignment: nat, size: nat)
    requires alignment > 0
    ensures forall x: nat :: Holds(b, e, alignment, size, x) ==> b <= x && size <= e - b
  {
  }

  lemma FitsIff(m: seq<nat>, k: nat, alignment: nat, size: nat)
    requires Ordered(m) && alignment > 0 && k < |m| - 1
    ensures Fits(m, k, alignment, size) <==>
            !Used(m[k]) && size <= Addr(m[k + 1]) - Addr(m[k]) && Addr(m[k]) <= TopFit(Addr(m[k + 1]), size, alignment)
  {
    hide Ordered, Holds;
    if size <= Addr(m[k + 1]) {
      TopFitIsHighest(Addr(m[k]), Addr(m[k + 1]), alignment, size);
    }
    HoldsBound(Addr(m[k]), Addr(m[k + 1]), alignment, size);
  }

  lemma FitsFree(m: seq<nat>, k: nat, alignment: nat, size: nat)
    requires alignment > 0 && Fits(m, k, alignment, size)
    ensures k < |m| - 1 && !Used(m[k])
  {
  }

  // ----- Taking a block

  /** The list after the end of block k, from address a on, is taken.  A full list moves the start of the heap
      by a page first. */
  function After(m: seq<nat>, full: bool, k: nat, a: nat): seq<nat>
    requires k < |m|
  {
    var g := if full then m[0 := m[0] + PAGE] else m;
    if a == Addr(m[k]) then g[k := a + 1] else g[..k + 1] + [a + 1] + g[k + 1..]
  }

  lemma Marked(a: nat)
    requires a % 16 == 0
    ensures Used(a + 1) && Addr(a + 1) == a
    ensures !Used(a) && Addr(a) == a
    ensures !Used(a + PAGE) && Addr(a + PAGE) == a + PAGE && (a + PAGE) % 16 == 0
  {
    var q := a / 16;
    assert a == 16 * q;
    DivUnique(a, 2, 8 * q, 0);
    DivUnique(a + 1, 2, 8 * q, 1);
    DivUnique(a + PAGE, 2, 8 * q + PAGE / 2, 0);
    DivUnique(a + PAGE, 16, q + PAGE / 16, 0);
  }

  lemma FreePlain(v: nat)
    requires !Used(v)
    ensures Addr(v) == v
  {
  }

  lemma GrowKeeps(m: seq<nat>)
    requires WellFormed(m) && !Used(m[0]) && Addr(m[1]) - Addr(m[0]) >= 2 * PAGE
    ensures var g := m[0 := m[0] + PAGE];
            WellFormed(g) && Live(g) == Live(m)
  {
    hide Used, Addr;
    var g := m[0 := m[0] + PAGE];
    FreePlain(m[0]);
    Marked(m[0]);
    assert Addr(g[0]) == Addr(m[0]) + PAGE;
    forall x | x in Live(m)
      ensures x in Live(g)
    {
      var i := LiveIndex(m, x);
      LiveAt(g, i);
    }
    forall x | x in Live(g)
      ensures x in Live(m)
    {
      var i := LiveIndex(g, x);
      LiveAt(m, i);
    }
  }

  lemma AfterAt(m: seq<nat>, k: nat, a: nat)
    requires k < |m|
    ensures var t := After(m, false, k, a);
            var d := if a == Addr(m[k]) then 0 else 1;
            && |t| == |m| + d && t[k + d] == a + 1
            && (forall i | 0 <= i < k + d :: t[i] == m[i])
            && (forall i | k + d < i < |t| :: t[i] == m[i - d])
  {
  }

  lemma TakenIsLive(m: seq<nat>, k: nat, a: nat)
    requires k < |m| - 1 && a % 16 == 0
    ensures (a, Addr(m[k + 1])) in Live(After(m, false, k, a))
  {
    hide After, Addr, Used, Live;
    AfterAt(m, k, a);
    Marked(a);
    LiveAt(After(m, false, k, a), if a == Addr(m[k]) then k else k + 1);
  }

  lemma LiveBefore(m: seq<nat>, k: nat, a: nat, x: (nat, nat))
    requires k < |m| - 1 && !Used(m[k]) && a % 16 == 0 && x in Live(m)
    ensures x in Live(After(m, false, k, a))
  {
    hide After, Addr, Used, Live;
    AfterAt(m, k, a);
    Marked(a);
    var i := LiveIndex(m, x);
    var t := After(m, false, k, a);
    if i < k {
      assert i + 1 == k && a == Addr(m[k]) ==> Addr(t[i + 1]) == Addr(m[k]);
      LiveAt(t, i);
    } else if a == Addr(m[k]) {
      LiveAt(t, i);
    } else {
      LiveAt(t, i + 1);
    }
  }

  lemma LiveBehind(m: seq<nat>, k: nat, a: nat, x: (nat, nat))
    requires k < |m| - 1 && !Used(m[k]) && a % 16 == 0 && x in Live(After(m, false, k, a))
    ensures x in Live(m) || x == (a, Addr(m[k + 1]))
  {
    hide After, Addr, Used, Live;
    AfterAt(m, k, a);
    Marked(a);
    var t := After(m, false, k, a);
    var d := if a == Addr(m[k]) then 0 else 1;
    var i := LiveIndex(t, x);
    if i < k {
      LiveAt(m, i);
    } else if i > k + d {
      LiveAt(m, i - d);
    }
  }

  lemma TakeAt(m: seq<nat>, k: nat, a: nat)
    requires WellFormed(m) && k < |m| - 1 && !Used(m[k]) && a % 16 == 0 && Addr(m[k]) <= a < Addr(m[k + 1])
    ensures var t := After(m, false, k, a);
            WellFormed(t) && Addr(t[0]) == Addr(m[0]) && t[|t| - 1] == m[|m| - 1]
  {
    hide After, Addr, Used;
    var t := After(m, false, k, a);
    var d := if a == Addr(m[k]) then 0 else 1;
    AfterAt(m, k, a);
    Marked(a);
    forall i, j | 0 <= i < j < |t|
      ensures Addr(t[i]) < Addr(t[j])
    {
      if j == k + d {
        assert i < k ==> Addr(m[i]) < Addr(m[k]);
      } else if i == k + d {
        assert j - d > k + 1 ==> Addr(m[k + 1]) < Addr(m[j - d]);
      }
    }
  }

  /** The end of a free block is taken: the list stays in order and has one more block in use. */
  lemma TakeKeeps(m: seq<nat>, k: nat, a: nat)
    requires WellFormed(m) && k < |m| - 1 && !Used(m[k]) && a % 16 == 0 && Addr(m[k]) <= a < Addr(m[k + 1])
    ensures var t := After(m, false, k, a);
            && WellFormed(t) && Addr(t[0]) == Addr(m[0]) && t[|t| - 1] == m[|m| - 1]
            && Live(t) == Live(m) + {(a, Addr(m[k + 1]))}
  {
    hide After, Addr, Used, Live, Ordered, Coalesced;
    var t := After(m, false, k, a);
    TakeAt(m, k, a);
    forall x | x in Live(m)
      ensures x in Live(t)
    {
      LiveBefore(m, k, a, x);
    }
    TakenIsLive(m, k, a);
    forall x | x in Live(t)
      ensures x in Live(m) || x == (a, Addr(m[k + 1]))
    {
      LiveBehind(m, k, a, x);
    }
  }

  /** A full list and room only in the first block, close to the page that the list needs for itself. */
  predicate Squeezed(m: seq<nat>, full: bool, k: nat, a: nat)
    requires |m| > 0
  {
    full && k == 0 && a <= Addr(m[0]) + PAGE
  }

  lemma NotFull(m: seq<nat>, k: nat, a: nat)
    requires |m| > 0
    ensures !Squeezed(m, false, k, a)
  {
  }

  lemma SqueezedBreaks(m: seq<nat>, a: nat)
    requires Ordered(m) && Squeezed(m, true, 0, a) && Addr(m[0]) <= a && a % 16 == 0 && !Used(m[0])
    ensures var t := After(m, true, 0, a);
            !(WellFormed(t) && Addr(t[0]) == Addr(m[0]) + PAGE)
  {
    hide Coalesced, Addr, Used;
    Marked(a);
    FreePlain(m[0]);
    Marked(m[0]);
    var t := After(m, true, 0, a);
    if a == Addr(m[0]) {
      assert t[0] == a + 1;
    } else {
      assert t[0] == m[0] + PAGE && t[1] == a + 1;
    }
  }

  lemma GrownAfter(m: seq<nat>, k: nat, a: nat)
    requires Ordered(m) && !Squeezed(m, true, k, a) && k < |m| - 1 && a % 16 == 0 && Addr(m[k]) <= a < Addr(m[k + 1])
    requires !Used(m[0])
    ensures var g := m[0 := m[0] + PAGE];
            && After(m, true, k, a) == After(g, false, k, a)
            && g[k + 1] == m[k + 1] && Addr(g[k]) <= a && Used(g[k]) == Used(m[k]) && Addr(g[0]) == Addr(m[0]) + PAGE
            && g[|g| - 1] == m[|m| - 1]
  {
    hide Addr, Used;
    FreePlain(m[0]);
    Marked(m[0]);
  }

  /** Then, and only then, taking a block ruins the list: it is out of order, or the block lies in the list. */
  lemma AfterIff(m: seq<nat>, full: bool, k: nat, a: nat)
    requires WellFormed(m) && k < |m| - 1 && !Used(m[k]) && a % 16 == 0 && Addr(m[k]) <= a < Addr(m[k + 1])
    requires full ==> !Used(m[0]) && Addr(m[1]) - Addr(m[0]) >= 2 * PAGE
    ensures var t := After(m, full, k, a);
            && (WellFormed(t) && Addr(t[0]) == Addr(m[0]) + (if full then PAGE else 0) <==> !Squeezed(m, full, k, a))
            && (!Squeezed(m, full, k, a) ==> Live(t) == Live(m) + {(a, Addr(m[k + 1]))} && t[|t| - 1] == m[|m| - 1])
  {
    hide Live, Coalesced, Ordered, After;
    if !full {
      TakeKeeps(m, k, a);
      NotFull(m, k, a);
    } else if Squeezed(m, full, k, a) {
      SqueezedBreaks(m, a);
      FreePlain(m[0]);
    } else {
      GrowKeeps(m);
      GrownAfter(m, k, a);
      TakeKeeps(m[0 := m[0] + PAGE], k, a);
    }
  }

  /** The list after n blocks of 16 bytes have been taken from the end of a fresh heap. */
  ghost function Stack(first: nat, end: nat, n: nat): (m: seq<nat>)
    requires 16 * n <= end
    ensures |m| == n + 2
  {
    [first] + seq(n, i requires 0 <= i < n => end - 16 * (n - i) + 1) + [end]
  }

  lemma Sixteens(v: nat, n: nat)
    requires v % 16 == 0 && 16 * n <= v
    ensures (v - 16 * n) % 16 == 0
  {
    DivUnique(v - 16 * n, 16, v / 16 - n, 0);
  }

  lemma StackEntry(first: nat, end: nat, n: nat, i: nat)
    requires end % 16 == 0 && 16 * n <= end && 0 < i <= n
    ensures var v := Stack(first, end, n)[i]; Used(v) && Addr(v) == end - 16 * (n - i + 1)
  {
    hide Used, Addr;
    assert Stack(first, end, n)[i] == end - 16 * (n - (i - 1)) + 1;
    Sixteens(end, n - i + 1);
    Marked(end - 16 * (n - i + 1));
  }

  lemma StackAt(first: nat, end: nat, n: nat)
    requires first % 16 == 0 && end % 16 == 0 && 16 * n <= end
    ensures var m := Stack(first, end, n);
            && !Used(m[0]) && Addr(m[0]) == first && Addr(m[1]) == end - 16 * n && Addr(m[n + 1]) == end
            && forall i | 0 < i <= n :: Used(m[i])
  {
    hide Used, Addr;
    Marked(first);
    Marked(end);
    var m := Stack(first, end, n);
    if n > 0 {
      StackEntry(first, end, n, 1);
    }
    forall i | 0 < i <= n
      ensures Used(m[i])
    {
      StackEntry(first, end, n, i);
    }
  }

  /** Only the first block of such a list is free, and what is taken comes from its end. */
  lemma StackFits(first: nat, end: nat, n: nat, size: nat)
    requires first % 16 == 0 && end % 16 == 0 && size % 16 == 0 && 0 < size && first + size + 16 * n <= end
    requires Ordered(Stack(first, end, n))
    ensures var m := Stack(first, end, n);
            && (forall j: nat | j <= n :: Fits(m, j, 16, size) <==> j == 0)
            && TopFit(Addr(m[1]), size, 16) == end - 16 * n - size
  {
    hide Ordered, Stack, Addr, Used;
    var m := Stack(first, end, n);
    StackAt(first, end, n);
    Sixteens(end, n);
    Sixteens(end - 16 * n, size / 16);
    FitsIff(m, 0, 16, size);
  }

  lemma StackTake(first: nat, end: nat, n: nat)
    requires first % 16 == 0 && end % 16 == 0 && first + 16 * (n + 1) < end
    ensures After(Stack(first, end, n), false, 0, end - 16 * (n + 1)) == Stack(first, end, n + 1)
  {
    hide Used, Addr;
    StackAt(first, end, n);
    var m, t := Stack(first, end, n), Stack(first, end, n + 1);
    assert m[1..] == t[2..];
  }

  // ----- Giving a block back

  lemma ClearKeeps(m: seq<nat>, k: nat)
    requires Ordered(m) && k < |m| - 1 && Used(m[k])
    ensures var t := m[k := m[k] - 1];
            && Ordered(t) && Addr(t[0]) == Addr(m[0]) && t[|t| - 1] == m[|m| - 1]
            && Live(t) == Live(m) - {(Addr(m[k]), Addr(m[k + 1]))}
            && forall i | 0 <= i < |m| :: Addr(t[i]) == Addr(m[i])
  {
    var t := m[k := m[k] - 1];
    assert !Used(m[k] - 1) && Addr(m[k] - 1) == Addr(m[k]);
    assert forall i | 0 <= i < |m| :: Addr(t[i]) == Addr(m[i]);
    hide Addr, Used;
    forall x | x in Live(m) && x != (Addr(m[k]), Addr(m[k + 1]))
      ensures x in Live(t)
    {
      var i := LiveIndex(m, x);
      LiveAt(t, i);
    }
    forall x | x in Live(t)
      ensures x in Live(m) && x != (Addr(m[k]), Addr(m[k + 1]))
    {
      var i := LiveIndex(t, x);
      LiveAt(m, i);
      assert i < k || k < i;
    }
  }

  /** Two free neighbours become one block. */
  lemma JoinKeeps(m: seq<nat>, i: nat)
    requires Ordered(m) && 0 < i < |m| - 1 && !Used(m[i]) && !Used(m[i - 1])
    ensures var t := m[..i] + m[i + 1..];
            && Ordered(t) && Addr(t[0]) == Addr(m[0]) && t[|t| - 1] == m[|m| - 1] && Live(t) == Live(m)
  {
    hide Addr, Used;
    var t := m[..i] + m[i + 1..];
    forall x | x in Live(m)
      ensures x in Live(t)
    {
      var j := LiveIndex(m, x);
      LiveAt(t, if j < i then j else j - 1);
    }
    forall x | x in Live(t)
      ensures x in Live(m)
    {
      var j := LiveIndex(t, x);
      if j < i - 1 {
        LiveAt(m, j);
      } else {
        assert j >= i;
        LiveAt(m, j + 1);
      }
    }
  }

  /** The blocks in use but for those that start at an address. */
  ghost function Without(blocks: set<(nat, nat)>, start: nat): set<(nat, nat)>
  {
    set x | x in blocks && x.0 != start
  }

  lemma StartsAt(m: seq<nat>, k: nat)
    requires Ordered(m) && k < |m| - 1 && Used(m[k])
    ensures Live(m) - {(Addr(m[k]), Addr(m[k + 1]))} == Without(Live(m), Addr(m[k]))
  {
    hide Addr, Used;
    forall x | x in Live(m) && x.0 == Addr(m[k])
      ensures x == (Addr(m[k]), Addr(m[k + 1]))
    {
      var i := LiveIndex(m, x);
      assert !(i < k) && !(k < i);
    }
  }

  lemma StartsNowhere(m: seq<nat>, start: nat)
    requires forall k | 0 <= k < |m| - 1 && Used(m[k]) :: Addr(m[k]) != start
    ensures Without(Live(m), start) == Live(m)
  {
    forall x | x in Live(m)
      ensures x.0 != start
    {
      var i := LiveIndex(m, x);
    }
  }

  // ----- Usage

  /** How many bytes are in used (or in free) blocks from block i on. */
  ghost function Sum(m: seq<nat>, i: nat, used: bool): int
    decreases |m| - i
  {
    if i + 1 >= |m| then 0
    else (if Used(m[i]) == used then Addr(m[i + 1]) - Addr(m[i]) else 0) + Sum(m, i + 1, used)
  }

  /** Every byte of the heap is in one or the other. */
  lemma {:induction false} SumsAreAll(m: seq<nat>, i: nat)
    requires i < |m|
    ensures Sum(m, i, true) + Sum(m, i, false) == Addr(m[|m| - 1]) - Addr(m[i])
    decreases |m| - i
  {
    if i + 1 < |m| {
      SumsAreAll(m, i + 1);
    }
  }

  lemma {:induction false} SumTail(m: seq<nat>, n: nat, t: seq<nat>, d: nat, used: bool)
    requires |t| == |m| + d && n <= |m| && forall i | n <= i < |m| :: t[i + d] == m[i]
    ensures Sum(t, n + d, used) == Sum(m, n, used)
    decreases |m| - n
  {
    if n + 1 < |m| {
      SumTail(m, n + 1, t, d, used);
      assert t[n + 1 + d] == m[n + 1];
    }
  }

  lemma {:induction false} SumHead(m: seq<nat>, t: seq<nat>, i: nat, k: nat, used: bool)
    requires i <= k < |m| && k < |t| && forall j | i <= j <= k :: t[j] == m[j]
    ensures Sum(t, i, used) - Sum(t, k, used) == Sum(m, i, used) - Sum(m, k, used)
    decreases k - i
  {
    if i < k {
      SumHead(m, t, i + 1, k, used);
    }
  }

  lemma SumStep(m: seq<nat>, i: nat, used: bool)
    requires i + 1 < |m|
    ensures Sum(m, i, used) == (if Used(m[i]) == used then Addr(m[i + 1]) - Addr(m[i]) else 0) + Sum(m, i + 1, used)
  {
    hide Used, Addr;
  }

  lemma Inserted(m: seq<nat>, t: seq<nat>, k: nat, a: nat)
    requires k < |m| - 1 && |t| == |m| + 1 && t[k + 1] == a + 1 && Used(a + 1) && Addr(a + 1) == a && !Used(m[k])
    requires forall i | 0 <= i < k + 1 :: t[i] == m[i]
    requires forall i | k + 1 < i < |t| :: t[i] == m[i - 1]
    ensures Sum(t, 0, true) == Sum(m, 0, true) + (Addr(m[k + 1]) - a)
  {
    hide Used, Addr, Sum;
    SumTail(m, k + 1, t, 1, true);
    SumHead(m, t, 0, k, true);
    SumStep(m, k, true);
    SumStep(t, k, true);
    SumStep(t, k + 1, true);
  }

  lemma {:induction false} HeadMovedFrom(m: seq<nat>, t: seq<nat>, k: nat, i: nat)
    requires i <= k < |m| - 1 && |t| == |m| && Addr(t[k]) == Addr(m[k]) && Used(t[k]) && !Used(m[k])
    requires forall j | 0 <= j < |m| && j != k :: t[j] == m[j]
    requires Sum(t, k + 1, true) == Sum(m, k + 1, true)
    ensures Sum(t, i, true) == Sum(m, i, true) + (Addr(m[k + 1]) - Addr(m[k]))
    decreases k - i
  {
    hide Used, Addr;
    if i < k {
      HeadMovedFrom(m, t, k, i + 1);
      assert i + 1 < k ==> t[i + 1] == m[i + 1];
    }
  }

  lemma HeadMoved(m: seq<nat>, t: seq<nat>, k: nat, a: nat)
    requires k < |m| - 1 && |t| == |m| && Addr(t[k]) == Addr(m[k]) == a && Used(t[k]) && !Used(m[k])
    requires forall i | 0 <= i < |m| && i != k :: t[i] == m[i]
    requires Sum(t, k + 1, true) == Sum(m, k + 1, true)
    ensures Sum(t, 0, true) == Sum(m, 0, true) + (Addr(m[k + 1]) - a)
  {
    hide Used, Addr;
    HeadMovedFrom(m, t, k, 0);
  }

  /** Taking a block moves exactly its bytes from the free ones to the used ones. */
  lemma TakeMovesBytes(m: seq<nat>, k: nat, a: nat)
    requires WellFormed(m) && k < |m| - 1 && !Used(m[k]) && a % 16 == 0 && Addr(m[k]) <= a < Addr(m[k + 1])
    ensures Sum(After(m, false, k, a), 0, true) == Sum(m, 0, true) + (Addr(m[k + 1]) - a)
    ensures Sum(After(m, false, k, a), 0, false) == Sum(m, 0, false) - (Addr(m[k + 1]) - a)
  {
    hide After, Ordered, Coalesced, Used, Addr, Sum, Live;
    var t := After(m, false, k, a);
    AfterAt(m, k, a);
    Marked(a);
    if a == Addr(m[k]) {
      SumTail(m, k + 1, t, 0, true);
      HeadMoved(m, t, k, a);
    } else {
      Inserted(m, t, k, a);
    }
    SumsAreAll(m, 0);
    SumsAreAll(t, 0);
    TakeKeeps(m, k, a);
  }

  // ----- The heap

  /** The list lies right in front of the heap and fits its pages. */
  ghost predicate Formed(m: seq<nat>, mapAddr: nat, mapSize: nat)
  {
    && WellFormed(m) && Addr(m[0]) == mapAddr + mapSize
    && mapAddr % PAGE == 0 && mapSize % PAGE == 0 && 0 < mapSize && 4 * |m| <= mapSize
    && Addr(m[|m| - 1]) < 0x1_0000_0000
  }

  lemma PagesAndEntries(mapSize: nat, entries: nat)
    requires mapSize % PAGE == 0
    ensures (mapSize + PAGE) % PAGE == 0
    ensures 4 * entries < mapSize ==> 4 * (entries + 1) <= mapSize
  {
    var pages := mapSize / PAGE;
    assert mapSize == PAGE * pages;
    DivUnique(mapSize + PAGE, PAGE, pages + 1, 0);
  }

  lemma AfterFormed(m: seq<nat>, mapAddr: nat, mapSize: nat, k: nat, a: nat)
    requires Formed(m, mapAddr, mapSize) && k < |m| - 1 && !Used(m[k]) && a % 16 == 0 && Addr(m[k]) <= a < Addr(m[k + 1])
    requires 4 * |m| >= mapSize ==> !Used(m[0]) && Addr(m[1]) - Addr(m[0]) >= 2 * PAGE
    ensures var full := 4 * |m| >= mapSize;
            var t := After(m, full, k, a);
            && (Formed(t, mapAddr, mapSize + if full then PAGE else 0) <==> !Squeezed(m, full, k, a))
            && (!Squeezed(m, full, k, a) ==> Live(t) == Live(m) + {(a, Addr(m[k + 1]))})
  {
    hide WellFormed, Used, Addr, Live, Squeezed;
    var full := 4 * |m| >= mapSize;
    AfterIff(m, full, k, a);
    PagesAndEntries(mapSize, |m|);
    assert |After(m, full, k, a)| <= |m| + 1;
  }

  lemma MovedStart(m: seq<nat>)
    requires WellFormed(m) && !Used(m[0])
    ensures |m| >= 2 && Addr(m[0] + PAGE) == Addr(m[0]) + PAGE
  {
    FreePlain(m[0]);
    Marked(m[0]);
  }

  lemma MovedFormed(m: seq<nat>, mapAddr: nat, mapSize: nat)
    requires Formed(m, mapAddr, mapSize) && !Used(m[0]) && Addr(m[1]) - Addr(m[0]) >= 2 * PAGE
    ensures var g := m[0 := mapAddr + PAGE + mapSize];
            && Formed(g, mapAddr + PAGE, mapSize) && Live(g) == Live(m) && g[|g| - 1] == m[|m| - 1]
  {
    hide WellFormed, Used, Addr, Live;
    MovedStart(m);
    FreePlain(m[0]);
    GrowKeeps(m);
    PagesAndEntries(mapAddr, 0);
    assert m[0] == mapAddr + mapSize;
  }

  class Heap {
    var bounds: seq<nat>     // heap_map, heap_map_entries
    var mapAddr: nat      // where the list is
    var mapSize: nat      // how many bytes it may take

    ghost predicate Valid()
      reads this
    {
      Formed(bounds, mapAddr, mapSize)
    }

    static lemma PageIsPlain(v: nat)
      requires v % PAGE == 0
      ensures v % 16 == 0 && !Used(v) && Addr(v) == v
    {
      var q := v / PAGE;
      DivUnique(v, 16, q * (PAGE / 16), 0);
      Marked(v);
    }

    /** heap_init: one free block behind a list of one page. */
    constructor (start: nat, end: nat)
      requires start % PAGE == 0 && end % PAGE == 0 && 0x10_0000 <= end - start <= 0x1000_0000 && end < 0x1_0000_0000
      ensures Valid() && Live(bounds) == {} && mapAddr == start && mapSize == PAGE && bounds == [start + PAGE, end]
    {
      mapAddr, mapSize := start, PAGE;
      bounds := [start + PAGE, end];
      new;
      PageIsPlain(start + PAGE);
      PageIsPlain(end);
      assert Live(bounds) == {};
    }

    /** The list has no room for another entry. */
    predicate Full()
      reads this
    {
      4 * |bounds| >= mapSize
    }

    predicate CanGrow()
      requires |bounds| >= 2
      reads this
    {
      !Used(bounds[0]) && Addr(bounds[1]) - Addr(bounds[0]) >= 2 * PAGE
    }

    // The search of heap_aligned_alloc, from the top.
    method FindRoom(alignment: nat, size: nat) returns (addr: nat, k: nat)
      requires Valid() && alignment in POWERS && alignment >= 0x10 && size > 0
      ensures addr == 0 <==> forall j: nat | j < |bounds| - 1 :: !Fits(bounds, j, alignment, size)
      ensures addr != 0 ==>
                && Fits(bounds, k, alignment, size) && (forall j: nat | k < j < |bounds| - 1 :: !Fits(bounds, j, alignment, size))
                && addr == TopFit(Addr(bounds[k + 1]), size, alignment)
                && addr % alignment == 0 && Addr(bounds[k]) <= addr && addr + size <= Addr(bounds[k + 1])
    {
      hide Coalesced, Used, Addr;
      var i := |bounds| - 1;
      addr, k := 0, 0;
      while i > 0
        invariant 0 <= i <= |bounds| - 1
        invariant forall j: nat | i <= j < |bounds| - 1 :: !Fits(bounds, j, alignment, size)
      {
        k := i - 1;
        var b := bounds[k];
        FitsIff(bounds, k, alignment, size);
        if !Used(b) {
          FreePlain(b);
          var e := Addr(bounds[i]);
          if size <= e - b {
            var remainder := (e - size) % alignment;
            if size + remainder <= e - b {
              TopFitIsHighest(b, e, alignment, size);
              assert Addr(bounds[0]) <= Addr(bounds[k]);
              return e - size - remainder, k;
            }
          }
        }
        i := i - 1;
      }
    }

    /** The list is full, and only the first block has room, close to the page that the list takes for itself. */
    ghost predicate Squeezes(alignment: nat, size: nat)
      reads this
    {
      var align := AtLeast16(alignment);
      && alignment in POWERS && 0 < size <= 0x1000_0000
      && |bounds| >= 2 && Full() && CanGrow()
      && (forall j: nat | 0 < j < |bounds| - 1 :: !Fits(bounds, j, align, size))
      && size <= Addr(bounds[1]) && Addr(bounds[0]) <= TopFit(Addr(bounds[1]), size, align) <= Addr(bounds[0]) + PAGE
    }

    lemma SqueezesIff(alignment: nat, size: nat, k: nat, ptr: nat)
      requires Valid() && alignment in POWERS && 0 < size <= 0x1000_0000 && (Full() ==> CanGrow())
      requires var align := AtLeast16(alignment);
               && Fits(bounds, k, align, size) && (forall j: nat | k < j < |bounds| - 1 :: !Fits(bounds, j, align, size))
               && ptr == TopFit(Addr(bounds[k + 1]), size, align)
      ensures Squeezes(alignment, size) <==> Squeezed(bounds, Full(), k, ptr)
    {
      hide Coalesced, Used, Addr, Fits;
      var align := AtLeast16(alignment);
      FitsFree(bounds, k, align, size);
      FitsIff(bounds, 0, align, size);
    }

    lemma NothingSqueezes(alignment: nat, size: nat)
      requires Valid()
      requires var align := AtLeast16(alignment);
               alignment !in POWERS || size == 0 || size > 0x1000_0000 || (Full() && !CanGrow())
               || forall j: nat | j < |bounds| - 1 :: !Fits(bounds, j, align, size)
      ensures !Squeezes(alignment, size)
    {
      hide Coalesced, Used, Addr, Fits;
      var align := AtLeast16(alignment);
      FitsIff(bounds, 0, align, size);
    }

    lemma MapFacts()
      requires Valid()
      ensures |bounds| >= 2 && Addr(bounds[0]) == mapAddr + mapSize
    {
    }

    /** heap_aligned_alloc: the highest free range that is aligned and large enough, or nothing if there is
        none, or if the list is full and cannot grow.  The heap stays sound exactly unless it squeezes. */
    method AlignedAlloc(alignment: nat, size: nat) returns (ptr: nat, ghost k: nat)
      requires Valid()
      modifies this
      ensures var sound := alignment in POWERS && 0 < size <= 0x1000_0000;
              var align := AtLeast16(alignment);
              && (ptr == 0 <==> !sound || (forall j: nat | j < |old(bounds)| - 1 :: !Fits(old(bounds), j, align, size))
                                || (old(Full()) && !old(CanGrow())))
              && (ptr == 0 ==> bounds == old(bounds) && mapSize == old(mapSize))
              && (ptr != 0 ==>
                    && Fits(old(bounds), k, align, size) && (forall j: nat | k < j < |old(bounds)| - 1 :: !Fits(old(bounds), j, align, size))
                    && ptr == TopFit(Addr(old(bounds)[k + 1]), size, align) && ptr % align == 0
                    && Addr(old(bounds)[k]) <= ptr && ptr + size <= Addr(old(bounds)[k + 1])
                    && bounds == After(old(bounds), old(Full()), k, ptr)
                    && mapSize == old(mapSize) + if old(Full()) then PAGE else 0)
      ensures mapAddr == old(mapAddr)
      ensures Valid() <==> !old(Squeezes(alignment, size))
      ensures ptr != 0 && Valid() ==> Live(bounds) == Live(old(bounds)) + {(ptr, Addr(old(bounds)[k + 1]))}
    {
      hide Formed, WellFormed, Fits, Live, Addr, Used, Squeezed, Squeezes;
      k := 0;
      MapFacts();
      if !(alignment in POWERS && 0 < size <= 0x1000_0000) || (Full() && !CanGrow()) {
        NothingSqueezes(alignment, size);
      }
      if alignment == 0 || alignment > 0x2000 || alignment !in POWERS {
        return 0, k;
      }
      var align := AtLeast16(alignment);
      if size == 0 || size > 0x1000_0000 {
        return 0, k;
      }
      var addr, i;
      addr, i := FindRoom(align, size);
      k := i;
      if addr == 0 {
        NothingSqueezes(alignment, size);
        return 0, k;
      }
      ghost var m, full := bounds, Full();
      AlignedTo16(align, addr);
      FitsFree(m, k, align, size);
      if !Full() || CanGrow() {
        SqueezesIff(alignment, size, k, addr);
        AfterFormed(m, mapAddr, mapSize, k, addr);
      }
      var insert := addr != Addr(bounds[i]);
      if 4 * |bounds| >= mapSize {
        if Used(bounds[0]) || Addr(bounds[1]) - Addr(bounds[0]) < 2 * PAGE {
          return 0, k;
        }
        FreePlain(bounds[0]);
        mapSize := mapSize + PAGE;
        bounds := bounds[0 := mapAddr + mapSize];
      }
      if insert {
        bounds := bounds[..i + 1] + [addr + 1] + bounds[i + 1..];
      } else {
        bounds := bounds[i := addr + 1];
      }
      return addr, k;
    }

    static lemma SameEntry(v: nat, ptr: nat)
      ensures v == Addr(ptr) + 1 <==> Used(v) && Addr(v) == Addr(ptr)
    {
    }

    // The first loop of heap_free.
    method ClearUsedBit(ptr: nat)
      requires Ordered(bounds)
      modifies this`bounds
      ensures Ordered(bounds) && |bounds| == |old(bounds)|
      ensures Addr(bounds[0]) == Addr(old(bounds)[0]) && bounds[|bounds| - 1] == old(bounds)[|bounds| - 1]
      ensures Live(bounds) == Without(Live(old(bounds)), Addr(ptr))
    {
      hide Addr, Used, Live;
      ghost var m := bounds;
      var a := Addr(ptr) + 1;
      for i := 0 to |bounds| - 1
        invariant bounds == m
        invariant forall k | 0 <= k < i && Used(m[k]) :: Addr(m[k]) != Addr(ptr)
      {
        SameEntry(bounds[i], ptr);
        if bounds[i] == a {
          ClearKeeps(m, i);
          StartsAt(m, i);
          bounds := bounds[i := bounds[i] - 1];
          return;
        }
      }
      StartsNowhere(m, Addr(ptr));
    }

    // The second loop of heap_free.
    method Coalesce()
      requires Ordered(bounds)
      modifies this`bounds
      ensures WellFormed(bounds) && |bounds| <= |old(bounds)|
      ensures Addr(bounds[0]) == Addr(old(bounds)[0]) && bounds[|bounds| - 1] == old(bounds)[|old(bounds)| - 1]
      ensures Live(bounds) == Live(old(bounds))
    {
      hide Addr, Used, Live;
      var i := 1;
      while i < |bounds| - 1
        invariant 1 <= i && Ordered(bounds) && |bounds| <= |old(bounds)| && Live(bounds) == Live(old(bounds))
        invariant Addr(bounds[0]) == Addr(old(bounds)[0]) && bounds[|bounds| - 1] == old(bounds)[|old(bounds)| - 1]
        invariant forall j | 0 < j < i && j < |bounds| - 1 :: Used(bounds[j]) || Used(bounds[j - 1])
        decreases |bounds| - i
      {
        if Used(bounds[i - 1]) || Used(bounds[i]) {
          i := i + 1;
          continue;
        }
        JoinKeeps(bounds, i);
        bounds := bounds[..i] + bounds[i + 1..];
      }
    }

    /** heap_free: the block that starts at the address, whatever its lowest bit, is free again and nothing else
        changes; an address where no block in use starts is ignored. */
    method Free(ptr: nat)
      requires Valid()
      modifies this`bounds
      ensures Valid()
      ensures Live(bounds) == Without(Live(old(bounds)), Addr(ptr))
      ensures Addr(bounds[0]) == Addr(old(bounds)[0]) && bounds[|bounds| - 1] == old(bounds)[|old(bounds)| - 1]
    {
      hide Addr, Used, Live;
      ClearUsedBit(ptr);
      Coalesce();
    }

    /** A free block holds no start of a block in use. */
    static lemma NotYetLive(m: seq<nat>, k: nat, a: nat)
      requires Ordered(m) && k < |m| - 1 && !Used(m[k]) && Addr(m[k]) <= a < Addr(m[k + 1])
      ensures Without(Live(m) + {(a, Addr(m[k + 1]))}, a) == Live(m)
    {
      hide Addr, Used;
      forall x | x in Live(m)
        ensures x.0 != a
      {
        var i := LiveIndex(m, x);
        assert i < k || k + 1 <= i;
      }
    }

    /** Freeing what was just allocated restores the list exactly, provided it did not have to grow. */
    method AllocThenFree(alignment: nat, size: nat) returns (ptr: nat)
      requires Valid() && !Full()
      modifies this
      ensures bounds == old(bounds) && mapAddr == old(mapAddr) && mapSize == old(mapSize)
    {
      hide Addr, Used, Live, Fits, After;
      ghost var m, k := bounds, 0;
      ptr, k := AlignedAlloc(alignment, size);
      if ptr != 0 {
        FitsFree(m, k, AtLeast16(alignment), size);
        AlignedTo16(AtLeast16(alignment), ptr);
        Marked(ptr);
        TakeKeeps(m, k, ptr);
        NotYetLive(m, k, ptr);
        Free(ptr);
        LiveDetermines(m, bounds);
      }
    }

    /** heap_alloc_static_page: the list moves up by a page, and the page it leaves belongs to the caller. */
    method AllocStaticPage() returns (ptr: nat)
      requires Valid()
      modifies this
      ensures Valid() && mapSize == old(mapSize)
      ensures ptr == 0 <==> !old(CanGrow()) || old(mapAddr) == 0
      ensures !old(CanGrow()) ==> bounds == old(bounds) && mapAddr == old(mapAddr)
      ensures old(CanGrow()) ==>
                && ptr == old(mapAddr) && mapAddr == ptr + PAGE && Live(bounds) == Live(old(bounds))
                && bounds[|bounds| - 1] == old(bounds)[|old(bounds)| - 1]
    {
      hide Formed, Live, Addr, Used;
      MapFacts();
      if Used(bounds[0]) || Addr(bounds[1]) - Addr(bounds[0]) < 2 * PAGE {
        return 0;
      }
      MovedFormed(bounds, mapAddr, mapSize);
      ptr := mapAddr;
      mapAddr := mapAddr + PAGE;
      bounds := bounds[0 := mapAddr + mapSize];
    }

    /** heap_usage */
    method Usage() returns (usedBytes: int, freeBytes: int)
      requires Valid()
      ensures usedBytes == Sum(bounds, 0, true) && freeBytes == Sum(bounds, 0, false)
      ensures usedBytes + freeBytes == Addr(bounds[|bounds| - 1]) - Addr(bounds[0])
    {
      hide Addr, Used;
      usedBytes, freeBytes := 0, 0;
      var i := |bounds| - 1;
      while i > 0
        invariant 0 <= i <= |bounds| - 1
        invariant usedBytes == Sum(bounds, i, true) && freeBytes == Sum(bounds, i, false)
      {
        var b, e := Addr(bounds[i - 1]), Addr(bounds[i]);
        if Used(bounds[i - 1]) {
          if b < e {
            usedBytes := usedBytes + (e - b);
          }
        } else {
          if b < e {
            freeBytes := freeBytes + (e - b);
          }
        }
        i := i - 1;
      }
      SumsAreAll(bounds, 0);
    }
  }

  lemma PagesOf16(start: nat)
    requires start % PAGE == 0
    ensures start % 16 == 0 && (start + PAGE) % PAGE == 0 && (start + PAGE) % 16 == 0
    ensures (start + 0x10_0000) % PAGE == 0 && (start + 0x10_0000) % 16 == 0
  {
    var q := start / PAGE;
    DivUnique(start, 16, q * 0x100, 0);
    DivUnique(start + PAGE, PAGE, q + 1, 0);
    DivUnique(start + PAGE, 16, (q + 1) * 0x100, 0);
    DivUnique(start + 0x10_0000, PAGE, q + 0x100, 0);
    DivUnique(start + 0x10_0000, 16, (q + 0x100) * 0x100, 0);
  }

  lemma StackStart(first: nat, end: nat)
    ensures Stack(first, end, 0) == [first, end]
  {
  }

  /** What an allocation will find in such a heap. */
  lemma StackStep(h: Heap, first: nat, end: nat, n: nat, size: nat)
    requires first % 16 == 0 && end % 16 == 0 && size % 16 == 0 && 0 < size <= 0x1000_0000 && first + size + 16 * n <= end
    requires h.Valid() && h.bounds == Stack(first, end, n) && n <= 1022 && h.mapSize == PAGE && first + 0x4000 <= end
    requires end < 0x1_0000_0000
    ensures var m := h.bounds;
            && (forall j: nat | j < |m| - 1 :: Fits(m, j, 16, size) <==> j == 0)
            && TopFit(Addr(m[1]), size, 16) == end - 16 * n - size && Addr(m[0]) == first
            && (h.Full() <==> n == 1022) && (n == 1022 && end - 16 * n - first >= 2 * PAGE ==> h.CanGrow())
            && (h.Squeezes(16, size) <==> n == 1022 && end - 16 * n - first >= 2 * PAGE && end - 16 * n - size <= first + PAGE)
  {
    hide Stack, Addr, Used, Fits, Coalesced, HasRoom;
    StackAt(first, end, n);
    StackFits(first, end, n, size);
  }

  /** The smallest heap, from its start: 1022 blocks of 16 bytes fill the page of the list, and a block of all that is
      left is then handed out inside of the list. */
  method SqueezedRun(start: nat) returns (h: Heap, ptr: nat)
    requires start % PAGE == 0 && start > 0 && start + 0x10_0000 < 0x1_0000_0000
    ensures !h.Valid() && ptr != 0 && h.mapAddr <= ptr < h.mapAddr + h.mapSize
  {
    hide Formed, WellFormed, Fits, Live, Addr, Used, Squeezed, Stack, After, TopFit;
    var end := start + 0x10_0000;
    var first := start + PAGE;
    PagesOf16(start);
    h := new Heap(start, end);
    StackStart(first, end);
    for n := 0 to 1022
      invariant h.Valid() && h.bounds == Stack(first, end, n)
      invariant fresh(h) && h.mapAddr == start && h.mapSize == PAGE
    {
      StackStep(h, first, end, n, 16);
      StackTake(first, end, n);
      ghost var m, k := h.bounds, 0;
      assert Fits(m, 0, AtLeast16(16), 16);
      ptr, k := h.AlignedAlloc(16, 16);
      FitsFree(m, k, 16, 16);
    }
    StackStep(h, first, end, 1022, 0x10_0000 - PAGE - 16 * 1022);
    ghost var m, k := h.bounds, 0;
    ptr, k := h.AlignedAlloc(16, 0x10_0000 - PAGE - 16 * 1022);
    FitsFree(m, k, 16, 0x10_0000 - PAGE - 16 * 1022);
  }

  /** The alignments that are allowed are the powers of two up to two pages. */
  lemma AlignmentsArePowers(a: nat)
    ensures 1 in POWERS && 2 * PAGE in POWERS
    ensures 1 < a <= 2 * PAGE ==> (a in POWERS <==> a % 2 == 0 && a / 2 in POWERS)
    ensures a > 2 * PAGE || a == 0 ==> a !in POWERS
  {
  }
}
