/** The last part of memory_export_map (boot/uefi/memory.c): entries from several sources are sorted, cut down to
    one for each base, merged and checked.
 */
module UefiMaps {
  import opened BootMaps
  import opened Sequences
  import Sorting

  // ----- The order of the entries

  /** The unsigned 32-bit sum of a type and one: "not reported" comes last of all. */
  function Priority(e: Entry): nat
  {
    (e.kind + 1) % 0x1_0000_0000
  }

  /** qsort_native_map */
  function Compare(a: Entry, b: Entry): int
  {
    if a.base < b.base then -1
    else if a.base > b.base then 1
    else if Priority(a) > Priority(b) then -1
    else if Priority(a) < Priority(b) then 1
    else 0
  }

  lemma CompareIsOrder()
    ensures Sorting.IsOrder(Compare)
  {
    hide Priority;
  }

  /** By rising bases, and by falling priority where the bases are the same. */
  ghost predicate Ordered(m: seq<Entry>)
  {
    forall i, j | 0 <= i < j < |m| ::
      m[i].base < m[j].base || (m[i].base == m[j].base && Priority(m[i]) >= Priority(m[j]))
  }

  lemma SortedIsOrdered(m: seq<Entry>)
    ensures Ordered(Sorting.Sorted(m, Compare)) && multiset(Sorting.Sorted(m, Compare)) == multiset(m)
  {
    hide Priority;
    CompareIsOrder();
    Sorting.SortedIsSorted(m, Compare);
    var s := Sorting.Sorted(m, Compare);
    forall i, j | 0 <= i < j < |s|
      ensures s[i].base < s[j].base || (s[i].base == s[j].base && Priority(s[i]) >= Priority(s[j]))
    {
      assert Compare(s[i], s[j]) <= 0;
    }
  }

  // ----- The passes

  /** Of several entries with the same base only the first stays. */
  function Deduped(m1: Entry, rest: seq<Entry>): (r: seq<Entry>)
    ensures r != [] && r[0] == m1 && |r| <= |rest| + 1
    decreases |rest|
  {
    if rest == [] then [m1]
    else if m1.base == rest[0].base then Deduped(m1, rest[1..])
    else [m1] + Deduped(rest[0], rest[1..])
  }

  /** The first entry at or above 4 GiB stays if it is at 4 GiB; others that repeat their predecessor go. */
  function Joined(m1: Entry, rest: seq<Entry>): (r: seq<Entry>)
    ensures r != [] && r[0] == m1 && |r| <= |rest| + 1
    decreases |rest|
  {
    if rest == [] then [m1]
    else if (m1.base < FOUR_GIB && rest[0].base == FOUR_GIB) || !Repeats(m1, rest[0]) then
      [m1] + Joined(rest[0], rest[1..])
    else Joined(m1, rest[1..])
  }

  function Exported(m: seq<Entry>): (r: seq<Entry>)
    requires m != []
    ensures r != []
  {
    var s := Sorting.Sorted(m, Compare);
    var d := Deduped(s[0], s[1..]);
    Joined(d[0], d[1..])
  }

  // ----- What the result says

  /** Of the entries with the greatest base that is not above the address, one of the highest priority. */
  ghost predicate IsWinner(m: seq<Entry>, x: nat, e: Entry)
  {
    && e in m && e.base <= x
    && forall f | f in m && f.base <= x :: f.base < e.base || (f.base == e.base && Priority(f) <= Priority(e))
  }

  lemma OrderedRest(m1: Entry, rest: seq<Entry>)
    requires Ordered([m1] + rest)
    ensures Ordered(rest) && forall f | f in rest :: m1.base < f.base || (m1.base == f.base && Priority(m1) >= Priority(f))
  {
    hide Priority;
    var m := [m1] + rest;
    assert m[0] == m1;
    assert forall i | 0 <= i < |rest| :: rest[i] == m[i + 1];
  }

  lemma OrderedSkip(m1: Entry, rest: seq<Entry>)
    requires Ordered([m1] + rest) && rest != []
    ensures Ordered([m1] + rest[1..]) && Ordered([rest[0]] + rest[1..]) && [rest[0]] + rest[1..] == rest
  {
    hide Priority;
    var m, n := [m1] + rest, [m1] + rest[1..];
    OrderedRest(m1, rest);
    assert n[0] == m[0];
    assert forall i | 0 < i < |n| :: n[i] == m[i + 1];
    assert [rest[0]] + rest[1..] == rest;
  }

  /** Cutting down to one entry for each base keeps, at every address, one that wins. */
  lemma {:induction false} DedupedWins(m1: Entry, rest: seq<Entry>, x: nat)
    requires Ordered([m1] + rest) && m1.base <= x
    ensures IsWinner([m1] + rest, x, At(Deduped(m1, rest), x))
    decreases |rest|
  {
    hide Priority, Ordered;
    OrderedRest(m1, rest);
    if rest != [] {
      var m2, tail := rest[0], rest[1..];
      OrderedSkip(m1, rest);
      if m1.base == m2.base {
        DedupedWins(m1, tail, x);
        assert forall f :: f in [m1] + rest <==> f == m2 || f in [m1] + tail;
      } else {
        var d := Deduped(m2, tail);
        assert ([m1] + d)[1..] == d;
        if m2.base <= x {
          DedupedWins(m2, tail, x);
          assert forall f :: f in [m1] + rest <==> f == m1 || f in [m2] + tail;
        } else {
          OrderedRest(m2, tail);
          assert forall f :: f in [m1] + rest <==> f == m1 || f == m2 || f in tail;
        }
      }
    }
  }

  ghost predicate HasBase(m: seq<Entry>, b: nat)
  {
    exists e :: e in m && e.base == b
  }

  lemma HasBaseCons(m1: Entry, m: seq<Entry>)
    ensures forall b: nat :: HasBase([m1] + m, b) <==> b == m1.base || HasBase(m, b)
  {
    assert m1 in [m1] + m;
    assert forall e :: e in [m1] + m <==> e == m1 || e in m;
  }

  lemma StrictOne(m1: Entry)
    ensures Strict([m1])
  {
  }

  /** One entry for each base that there was. */
  lemma {:induction false} DedupedBases(m1: Entry, rest: seq<Entry>)
    requires Ordered([m1] + rest)
    ensures Strict(Deduped(m1, rest))
    ensures forall b: nat :: HasBase(Deduped(m1, rest), b) <==> HasBase([m1] + rest, b)
    decreases |rest|
  {
    hide Priority, Ordered, Strict, HasBase;
    OrderedRest(m1, rest);
    HasBaseCons(m1, rest);
    if rest == [] {
      assert [m1] + rest == [m1];
      StrictOne(m1);
    } else {
      var m2, tail := rest[0], rest[1..];
      OrderedSkip(m1, rest);
      HasBaseCons(m1, tail);
      HasBaseCons(m2, tail);
      if m1.base == m2.base {
        DedupedBases(m1, tail);
      } else {
        DedupedBases(m2, tail);
        StrictCons(m1, Deduped(m2, tail));
        HasBaseCons(m1, Deduped(m2, tail));
      }
    }
  }

  lemma StrictNone()
    ensures Strict([])
  {
  }

  lemma StrictRest(m1: Entry, rest: seq<Entry>)
    requires Strict([m1] + rest)
    ensures Strict(rest) && (rest != [] ==> m1.base < rest[0].base)
    ensures rest != [] ==> Strict([m1] + rest[1..]) && Strict([rest[0]] + rest[1..])
  {
    hide Strict;
    if rest == [] {
      StrictNone();
    } else {
      StrictCons(m1, rest);
      assert [rest[0]] + rest[1..] == rest;
      if rest[1..] == [] {
        StrictOne(m1);
        assert [m1] + rest[1..] == [m1];
      } else {
        StrictCons(rest[0], rest[1..]);
        StrictCons(m1, rest[1..]);
      }
    }
  }

  lemma Reflexive(a: Entry)
    ensures Repeats(a, a)
  {
  }

  lemma Chain(a: Entry, b: Entry, c: Entry)
    requires Repeats(a, b) && Repeats(b, c)
    ensures Repeats(a, c)
  {
  }

  /** Joining says the same about every address. */
  lemma {:induction false} JoinedSays(m1: Entry, rest: seq<Entry>, x: nat)
    requires Strict([m1] + rest) && m1.base <= x
    ensures Repeats(At(Joined(m1, rest), x), InForce(m1, rest, x))
    decreases |rest|
  {
    hide Strict, Repeats;
    Reflexive(m1);
    if rest != [] {
      var m2, tail := rest[0], rest[1..];
      StrictRest(m1, rest);
      if (m1.base < FOUR_GIB && m2.base == FOUR_GIB) || !Repeats(m1, m2) {
        var r := Joined(m2, tail);
        assert ([m1] + r)[1..] == r;
        if m2.base <= x {
          JoinedSays(m2, tail, x);
        }
      } else {
        JoinedSays(m1, tail, x);
        if m2.base <= x {
          InForceRepeats(m1, m2, tail, x);
          Chain(At(Joined(m1, tail), x), InForce(m1, tail, x), InForce(m2, tail, x));
        } else {
          StrictRest(m2, tail);
        }
      }
    }
  }

  /** Neighbours differ, but for the entry at 4 GiB. */
  ghost predicate NoRepeats(m: seq<Entry>)
  {
    forall i | 0 < i < |m| :: m[i].base == FOUR_GIB || !Repeats(m[i - 1], m[i])
  }

  lemma NoRepeatsOne(m1: Entry)
    ensures NoRepeats([m1])
  {
  }

  lemma NoRepeatsCons(m1: Entry, r: seq<Entry>)
    requires r != [] && NoRepeats(r) && (r[0].base == FOUR_GIB || !Repeats(m1, r[0]))
    ensures NoRepeats([m1] + r)
  {
    var m := [m1] + r;
    forall i | 0 < i < |m|
      ensures m[i].base == FOUR_GIB || !Repeats(m[i - 1], m[i])
    {
      assert m[i] == r[i - 1];
      if i > 1 {
        assert m[i - 1] == r[i - 2];
      }
    }
  }

  lemma {:induction false} JoinedShape(m1: Entry, rest: seq<Entry>)
    requires Strict([m1] + rest)
    ensures Strict(Joined(m1, rest)) && NoRepeats(Joined(m1, rest))
    ensures HasBase(Joined(m1, rest), FOUR_GIB) <==> HasBase([m1] + rest, FOUR_GIB)
    decreases |rest|
  {
    hide Strict, HasBase, Repeats, NoRepeats;
    HasBaseCons(m1, rest);
    if rest == [] {
      assert [m1] + rest == [m1];
      NoRepeatsOne(m1);
    } else {
      var m2, tail := rest[0], rest[1..];
      StrictRest(m1, rest);
      HasBaseCons(m1, tail);
      HasBaseCons(m2, tail);
      assert [m2] + tail == rest;
      if (m1.base < FOUR_GIB && m2.base == FOUR_GIB) || !Repeats(m1, m2) {
        JoinedShape(m2, tail);
        StrictCons(m1, Joined(m2, tail));
        HasBaseCons(m1, Joined(m2, tail));
        NoRepeatsCons(m1, Joined(m2, tail));
      } else {
        JoinedShape(m1, tail);
      }
    }
  }

  /** The map says at the address what an entry says that wins there. */
  ghost predicate SaysWinner(r: seq<Entry>, m: seq<Entry>, x: nat)
    requires r != []
  {
    exists e :: IsWinner(m, x, e) && Repeats(At(r, x), e)
  }

  lemma AtDef(m: seq<Entry>, x: nat)
    requires m != []
    ensures At(m, x) == InForce(m[0], m[1..], x)
  {
  }

  lemma SameMembers(s: seq<Entry>, m: seq<Entry>)
    requires multiset(s) == multiset(m)
    ensures forall e :: e in s <==> e in m
    ensures forall b: nat :: HasBase(s, b) <==> HasBase(m, b)
  {
    forall e
      ensures e in s <==> e in m
    {
      assert e in multiset(s) <==> e in multiset(m);
    }
  }

  lemma WinnerOf(s: seq<Entry>, m: seq<Entry>, x: nat, e: Entry)
    requires (forall f :: f in s <==> f in m) && IsWinner(s, x, e)
    ensures IsWinner(m, x, e)
  {
    hide Priority;
  }

  /** The exported map: strictly rising bases from the lowest one on, an entry at 4 GiB if there was one, and at
      every address what a winning entry says. */
  lemma ExportedIs(m: seq<Entry>)
    requires m != []
    ensures var r := Exported(m);
            && Strict(r) && NoRepeats(r)
            && (HasBase(r, FOUR_GIB) <==> HasBase(m, FOUR_GIB))
            && r[0] in m && (forall e | e in m :: r[0].base <= e.base)
            && forall x: nat | r[0].base <= x :: SaysWinner(r, m, x)
  {
    hide Strict, NoRepeats, HasBase, Repeats, Ordered, At, Deduped, Joined, IsWinner, Priority;
    var s := Sorting.Sorted(m, Compare);
    SortedIsOrdered(m);
    var d := Deduped(s[0], s[1..]);
    var r := Exported(m);
    assert [s[0]] + s[1..] == s && [d[0]] + d[1..] == d;
    DedupedBases(s[0], s[1..]);
    JoinedShape(d[0], d[1..]);
    SameMembers(s, m);
    OrderedRest(s[0], s[1..]);
    assert s[0] in s;
    forall x: nat | r[0].base <= x
      ensures SaysWinner(r, m, x)
    {
      DedupedWins(s[0], s[1..], x);
      JoinedSays(d[0], d[1..], x);
      WinnerOf(s, m, x, At(d, x));
      AtDef(d, x);
      assert IsWinner(m, x, At(d, x)) && Repeats(At(r, x), At(d, x));
    }
  }

  // ----- The array

  lemma DedupedIs(m1: Entry, rest: seq<Entry>)
    ensures Deduped(m1, rest) == if rest == [] then [m1]
                                 else if m1.base == rest[0].base then Deduped(m1, rest[1..])
                                 else [m1] + Deduped(rest[0], rest[1..])
  {
  }

  lemma DedupedStep(head: seq<Entry>, cur: Entry, rest: seq<Entry>)
    ensures head + Deduped(cur, rest) ==
            if rest == [] then head + [cur]
            else if cur.base == rest[0].base then head + Deduped(cur, rest[1..])
            else (head + [cur]) + Deduped(rest[0], rest[1..])
  {
    hide Deduped;
    DedupedIs(cur, rest);
    if rest != [] {
      ConcatAssociative(head, [cur], Deduped(rest[0], rest[1..]));
    }
  }

  // The pass that leaves one entry for each base.
  method Dedupe(a: array<Entry>, n: nat) returns (entries: nat)
    requires 0 < n < a.Length && forall k | n <= k < a.Length :: a[k] == ZERO
    modifies a
    ensures 0 < entries <= n && forall k | entries <= k < a.Length :: a[k] == ZERO
    ensures a[..entries] == Deduped(old(a[0]), old(a[..n])[1..])
  {
    hide Deduped;
    entries := n;
    ghost var head: seq<Entry>, cur, rest := [], a[0], a[..n][1..];
    ghost var goal := Deduped(cur, rest);
    assert head + goal == goal;
    var i := 1;
    while i < entries
      invariant 1 <= i <= entries <= n && forall k | entries <= k < a.Length :: a[k] == ZERO
      invariant a[..entries] == head + [cur] + rest && |head| == i - 1
      invariant head + Deduped(cur, rest) == goal
      decreases entries - i
    {
      DedupedStep(head, cur, rest);
      assert a[i - 1] == a[..entries][i - 1] == cur && a[i] == a[..entries][i] == rest[0];
      if a[i - 1].base != a[i].base {
        head, cur, rest := head + [cur], rest[0], rest[1..];
        assert head + [cur] + rest == a[..entries];
        i := i + 1;
        continue;
      }
      ghost var m := a[..entries];
      MoveDown(a, entries, i);
      entries := entries - 1;
      assert m[..i] == head + [cur] && m[i + 1..] == rest[1..];
      rest := rest[1..];
    }
    assert rest == [];
    DedupedStep(head, cur, rest);
  }

  lemma JoinedIs(m1: Entry, rest: seq<Entry>)
    ensures Joined(m1, rest) ==
            if rest == [] then [m1]
            else if (m1.base < FOUR_GIB && rest[0].base == FOUR_GIB) || !Repeats(m1, rest[0]) then
              [m1] + Joined(rest[0], rest[1..])
            else Joined(m1, rest[1..])
  {
    hide Repeats;
  }

  lemma JoinedStep(head: seq<Entry>, cur: Entry, rest: seq<Entry>)
    ensures head + Joined(cur, rest) ==
            if rest == [] then head + [cur]
            else if (cur.base < FOUR_GIB && rest[0].base == FOUR_GIB) || !Repeats(cur, rest[0]) then
              (head + [cur]) + Joined(rest[0], rest[1..])
            else head + Joined(cur, rest[1..])
  {
    hide Repeats, Joined;
    JoinedIs(cur, rest);
    if rest != [] {
      ConcatAssociative(head, [cur], Joined(rest[0], rest[1..]));
    }
  }

  // The pass that merges entries.
  method Join(a: array<Entry>, n: nat) returns (entries: nat)
    requires 0 < n < a.Length && forall k | n <= k < a.Length :: a[k] == ZERO
    modifies a
    ensures 0 < entries <= n && forall k | entries <= k < a.Length :: a[k] == ZERO
    ensures a[..entries] == Joined(old(a[0]), old(a[..n])[1..])
  {
    hide Joined;
    entries := n;
    ghost var head: seq<Entry>, cur, rest := [], a[0], a[..n][1..];
    ghost var goal := Joined(cur, rest);
    assert head + goal == goal;
    var i := 1;
    while i < entries
      invariant 1 <= i <= entries <= n && forall k | entries <= k < a.Length :: a[k] == ZERO
      invariant a[..entries] == head + [cur] + rest && |head| == i - 1
      invariant head + Joined(cur, rest) == goal
      decreases entries - i
    {
      JoinedStep(head, cur, rest);
      assert a[i - 1] == a[..entries][i - 1] == cur && a[i] == a[..entries][i] == rest[0];
      if (a[i - 1].base <= 0xFFFF_FFFF && a[i].base == FOUR_GIB)
         || a[i - 1].kind != a[i].kind || a[i - 1].flags != a[i].flags || a[i - 1].other != a[i].other {
        head, cur, rest := head + [cur], rest[0], rest[1..];
        assert head + [cur] + rest == a[..entries];
        i := i + 1;
        continue;
      }
      ghost var m := a[..entries];
      MoveDown(a, entries, i);
      entries := entries - 1;
      assert m[..i] == head + [cur] && m[i + 1..] == rest[1..];
      rest := rest[1..];
    }
    assert rest == [];
    JoinedStep(head, cur, rest);
  }

  lemma {:induction false} StepsTo(m: seq<Entry>, i: nat, j: nat)
    requires i < j < |m| && forall k | 0 < k < |m| :: m[k - 1].base < m[k].base
    ensures m[i].base < m[j].base
    decreases j - i
  {
    if i + 1 < j {
      StepsTo(m, i, j - 1);
    }
  }

  lemma {:induction false} StepsToStrict(m: seq<Entry>)
    requires forall k | 0 < k < |m| :: m[k - 1].base < m[k].base
    ensures Strict(m)
  {
    forall i, j | 0 <= i < j < |m|
      ensures m[i].base < m[j].base
    {
      StepsTo(m, i, j);
    }
  }

  /** The check at the end: strictly rising bases and four zero entries behind them. */
  method Check(a: array<Entry>, entries: nat) returns (ok: bool)
    requires 0 < entries && entries + 4 <= a.Length
    ensures ok <==> Strict(a[..entries]) && forall k | entries <= k < entries + 4 :: a[k] == ZERO
  {
    for i := 1 to entries + 4
      invariant forall k | 0 < k < i && k < entries :: a[k - 1].base < a[k].base
      invariant forall k | entries <= k < i :: a[k] == ZERO
    {
      if i < entries {
        if a[i - 1].base >= a[i].base {
          assert a[..entries][i - 1] == a[i - 1] && a[..entries][i] == a[i];
          return false;
        }
      } else {
        if a[i].kind != 0 || a[i].flags != 0 || a[i].base != 0 || a[i].other != 0 {
          return false;
        }
      }
    }
    StepsToStrict(a[..entries]);
    return true;
  }

  /** The end of memory_export_map.  On an array that is zero behind the entries the check never fails. */
  method FinishExport(a: array<Entry>, n: nat) returns (ok: bool, entries: nat)
    requires 0 < n && n + 4 <= a.Length && forall k | n <= k < a.Length :: a[k] == ZERO
    modifies a
    ensures ok && 0 < entries <= n && a[..entries] == Exported(old(a[..n]))
    ensures forall k | entries <= k < a.Length :: a[k] == ZERO
  {
    hide Deduped, Joined;
    ghost var m := a[..n];
    Sorting.Qsort(a, n, Compare);
    ghost var s := a[..n];
    assert a[0] == s[0];
    entries := Dedupe(a, n);
    ghost var d := a[..entries];
    assert a[0] == d[0];
    entries := Join(a, entries);
    ExportedIs(m);
    ok := Check(a, entries);
  }

  /** What is exported, from address 0 on, memory_init accepts as it is: with strictly rising bases. */
  lemma ExportedIsAccepted(a: seq<Entry>, entries: nat, m: seq<Entry>)
    requires m != [] && entries < |a| && a[..entries] == Exported(m) && a[entries] == ZERO && HasBase(m, 0)
    ensures RisesTo(a, entries) && FlaggedTo(a, entries, entries)
  {
    hide Exported, Strict, NoRepeats, RisesTo, FlaggedTo, SaysWinner;
    ExportedIs(m);
    assert a[..entries][0] == a[0];
    StrictIsAccepted(a, entries);
  }

  /** Of two kinds of memory the greater number wins, but 0xFFFFFFFF, which stands for memory that is not reported, loses
      against all others. */
  lemma PriorityIs(e: Entry, f: Entry)
    requires e.kind < 0x1_0000_0000 && f.kind < 0x1_0000_0000
    ensures Priority(e) < Priority(f) <==>
              f.kind != 0xFFFF_FFFF && (e.kind == 0xFFFF_FFFF || e.kind < f.kind)
  {
  }
}
