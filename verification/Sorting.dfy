/** qsort of kernel/lib/stdlib.c, an insertion sort on an array with a comparison that the caller gives. */
module Sorting {
  /** The comparison orders all values, as in C by the sign of its result. */
  ghost predicate IsOrder<T(!new)>(compar: (T, T) -> int)
  {
    && (forall x, y :: compar(x, y) <= 0 || compar(y, x) <= 0)
    && (forall x, y, z :: compar(x, y) <= 0 && compar(y, z) <= 0 ==> compar(x, z) <= 0)
  }

  ghost predicate SortedBy<T>(s: seq<T>, compar: (T, T) -> int)
  {
    forall i, j | 0 <= i < j < |s| :: compar(s[i], s[j]) <= 0
  }

  /** The value in its place: behind all the values that need not move for it. */
  function Inserted<T>(s: seq<T>, x: T, compar: (T, T) -> int): (r: seq<T>)
    ensures |r| == |s| + 1
  {
    if s == [] || compar(s[|s| - 1], x) <= 0 then s + [x]
    else Inserted(s[..|s| - 1], x, compar) + [s[|s| - 1]]
  }

  function Sorted<T>(s: seq<T>, compar: (T, T) -> int): (r: seq<T>)
    ensures |r| == |s|
  {
    if s == [] then [] else Inserted(Sorted(s[..|s| - 1], compar), s[|s| - 1], compar)
  }

  lemma {:induction false} InsertedSplit<T>(s: seq<T>, x: T, compar: (T, T) -> int, j: nat)
    requires j <= |s| && (j == 0 || compar(s[j - 1], x) <= 0) && forall k | j <= k < |s| :: compar(s[k], x) > 0
    ensures Inserted(s, x, compar) == s[..j] + [x] + s[j..]
    decreases |s|
  {
    if s != [] && j < |s| {
      var t := s[..|s| - 1];
      InsertedSplit(t, x, compar, j);
      assert t[..j] == s[..j] && s[j..] == t[j..] + [s[|s| - 1]];
    } else {
      assert s[..j] == s && s[j..] == [];
    }
  }

  lemma Total<T(!new)>(compar: (T, T) -> int, x: T, y: T)
    requires IsOrder(compar)
    ensures compar(x, y) <= 0 || compar(y, x) <= 0
  {
  }

  lemma Transitive<T(!new)>(compar: (T, T) -> int, x: T, y: T, z: T)
    requires IsOrder(compar) && compar(x, y) <= 0 && compar(y, z) <= 0
    ensures compar(x, z) <= 0
  {
  }

  lemma SortedMore<T(!new)>(s: seq<T>, x: T, compar: (T, T) -> int)
    requires SortedBy(s, compar) && forall i | 0 <= i < |s| :: compar(s[i], x) <= 0
    ensures SortedBy(s + [x], compar)
  {
    var r := s + [x];
    forall i, j | 0 <= i < j < |r|
      ensures compar(r[i], r[j]) <= 0
    {
      assert r[i] == s[i];
      if j < |s| {
        assert r[j] == s[j];
      }
    }
  }

  lemma SortedLess<T(!new)>(s: seq<T>, compar: (T, T) -> int)
    requires SortedBy(s, compar) && s != []
    ensures SortedBy(s[..|s| - 1], compar)
    ensures forall i | 0 <= i < |s| - 1 :: compar(s[i], s[|s| - 1]) <= 0
  {
  }

  lemma SortedOne<T(!new)>(x: T, compar: (T, T) -> int)
    ensures SortedBy([x], compar)
  {
  }

  /** Insertion keeps the order. */
  lemma {:induction false} InsertedSorted<T(!new)>(s: seq<T>, x: T, compar: (T, T) -> int)
    requires IsOrder(compar) && SortedBy(s, compar)
    ensures SortedBy(Inserted(s, x, compar), compar) && multiset(Inserted(s, x, compar)) == multiset(s) + multiset{x}
    decreases |s|
  {
    hide IsOrder, SortedBy;
    if s == [] {
      SortedOne(x, compar);
      assert s + [x] == [x];
      return;
    }
    var t, last := s[..|s| - 1], s[|s| - 1];
    SortedLess(s, compar);
    assert s == t + [last];
    if compar(last, x) <= 0 {
      forall i | 0 <= i < |s|
        ensures compar(s[i], x) <= 0
      {
        if i < |s| - 1 {
          Transitive(compar, s[i], last, x);
        }
      }
      SortedMore(s, x, compar);
    } else {
      InsertedSorted(t, x, compar);
      var u := Inserted(t, x, compar);
      forall i | 0 <= i < |u|
        ensures compar(u[i], last) <= 0
      {
        assert u[i] in multiset(u);
        Total(compar, x, last);
        if u[i] != x {
          assert u[i] in t;
        }
      }
      SortedMore(u, last, compar);
    }
  }

  /** The result is in order and holds the same values. */
  lemma {:induction false} SortedIsSorted<T(!new)>(s: seq<T>, compar: (T, T) -> int)
    requires IsOrder(compar)
    ensures SortedBy(Sorted(s, compar), compar) && multiset(Sorted(s, compar)) == multiset(s)
    decreases |s|
  {
    if s != [] {
      SortedIsSorted(s[..|s| - 1], compar);
      InsertedSorted(Sorted(s[..|s| - 1], compar), s[|s| - 1], compar);
      assert s == s[..|s| - 1] + [s[|s| - 1]];
    }
  }

  ghost predicate Same<T>(compar: (T, T) -> int, x: T, v: T)
  {
    compar(x, v) <= 0 && compar(v, x) <= 0
  }

  /** The values that compare equal to a given one, in their order. */
  ghost function Equals<T>(s: seq<T>, v: T, compar: (T, T) -> int): seq<T>
  {
    if s == [] then []
    else
      var last := s[|s| - 1];
      Equals(s[..|s| - 1], v, compar) + if Same(compar, last, v) then [last] else []
  }

  lemma EqualsMore<T>(s: seq<T>, x: T, v: T, compar: (T, T) -> int)
    ensures Equals(s + [x], v, compar)
            == Equals(s, v, compar) + if Same(compar, x, v) then [x] else []
  {
    assert (s + [x])[..|s|] == s;
  }

  lemma NotBothSame<T(!new)>(compar: (T, T) -> int, last: T, x: T, v: T)
    requires IsOrder(compar) && compar(last, x) > 0
    ensures !(Same(compar, last, v) && Same(compar, x, v))
  {
  }

  lemma {:induction false} InsertedStable<T(!new)>(s: seq<T>, x: T, v: T, compar: (T, T) -> int)
    requires IsOrder(compar)
    ensures Equals(Inserted(s, x, compar), v, compar) == Equals(s + [x], v, compar)
    decreases |s|
  {
    hide IsOrder, Same, Equals;
    if s != [] && compar(s[|s| - 1], x) > 0 {
      var t, last := s[..|s| - 1], s[|s| - 1];
      InsertedStable(t, x, v, compar);
      EqualsMore(Inserted(t, x, compar), last, v, compar);
      EqualsMore(t, x, v, compar);
      EqualsMore(t, last, v, compar);
      EqualsMore(s, x, v, compar);
      assert s == t + [last];
      NotBothSame(compar, last, x, v);
    }
  }

  /** Values that compare equal keep their order. */
  lemma {:induction false} SortedIsStable<T(!new)>(s: seq<T>, v: T, compar: (T, T) -> int)
    requires IsOrder(compar)
    ensures Equals(Sorted(s, compar), v, compar) == Equals(s, v, compar)
    decreases |s|
  {
    if s != [] {
      var t, last := s[..|s| - 1], s[|s| - 1];
      SortedIsStable(t, v, compar);
      InsertedStable(Sorted(t, compar), last, v, compar);
      EqualsMore(Sorted(t, compar), last, v, compar);
    }
  }

  lemma SortedFirst<T>(s: seq<T>, compar: (T, T) -> int)
    requires s != []
    ensures Sorted(s[..1], compar) == s[..1]
  {
    assert s[..1][..0] == [];
    assert Sorted(s[..1], compar) == Inserted([], s[0], compar);
  }

  /** The sequence with a value put in at a place. */
  ghost function Moved<T>(s: seq<T>, x: T, j: nat): (r: seq<T>)
    requires j <= |s|
    ensures |r| == |s| + 1 && r[j] == x && (j > 0 ==> r[j - 1] == s[j - 1])
  {
    s[..j] + [x] + s[j..]
  }

  lemma MovedOne<T>(s: seq<T>, x: T, j: nat)
    requires 0 < j <= |s|
    ensures Moved(s, x, j - 1) == Moved(s, x, j)[j - 1 := x][j := s[j - 1]]
  {
  }

  // The inner loop of qsort: the last value of the first i + 1 moves down to its place.
  method InsertLast<T>(a: array<T>, n: nat, i: nat, compar: (T, T) -> int)
    requires i < n <= a.Length
    modifies a
    ensures a[..i + 1] == Inserted(old(a[..i]), old(a[i]), compar)
    ensures a[i + 1..n] == old(a[i + 1..n])
    ensures forall k | n <= k < a.Length :: a[k] == old(a[k])
  {
    ghost var s, x := a[..i], a[i];
    var j := i;
    assert a[..i + 1] == Moved(s, x, j);
    while j > 0
      invariant 0 <= j <= i
      invariant a[..i + 1] == Moved(s, x, j)
      invariant forall k | j <= k < |s| :: compar(s[k], x) > 0
      invariant forall k | i < k < a.Length :: a[k] == old(a[k])
    {
      assert a[j - 1] == a[..i + 1][j - 1] == s[j - 1] && a[j] == a[..i + 1][j] == x;
      if compar(a[j - 1], a[j]) <= 0 {
        break;
      }
      MovedOne(s, x, j);
      a[j - 1], a[j] := a[j], a[j - 1];
      assert a[..i + 1] == Moved(s, x, j)[j - 1 := x][j := s[j - 1]];
      j := j - 1;
    }
    InsertedSplit(s, x, compar, j);
  }

  /** qsort: the first n values of the array are sorted in place, by swaps of neighbours. */
  method Qsort<T>(a: array<T>, n: nat, compar: (T, T) -> int)
    requires n <= a.Length
    modifies a
    ensures a[..n] == Sorted(old(a[..n]), compar)
    ensures forall k | n <= k < a.Length :: a[k] == old(a[k])
  {
    ghost var was := a[..n];
    if n > 0 {
      SortedFirst(was, compar);
    }
    var i := 1;
    while i < n
      invariant n > 0 ==> 1 <= i <= n
      invariant n > 0 ==> a[..i] == Sorted(was[..i], compar)
      invariant n > 0 ==> a[i..n] == was[i..]
      invariant forall k | n <= k < a.Length :: a[k] == old(a[k])
    {
      ghost var s, x := a[..i], a[i];
      assert x == was[i] by {
        assert a[i] == a[i..n][0] == was[i..][0];
      }
      assert a[i + 1..n] == was[i + 1..] by {
        assert a[i + 1..n] == a[i..n][1..] && was[i + 1..] == was[i..][1..];
      }
      InsertLast(a, n, i, compar);
      assert was[..i + 1][..i] == was[..i];
      i := i + 1;
    }
    if n > 0 {
      assert a[..n] == a[..i] && was[..i] == was;
    }
  }
}
