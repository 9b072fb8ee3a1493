/** The Huffman decoder and encoder tables of kernel/lib/huffman.c. */
module Huffmans {
  import opened BitStrings
  import opened BitArrays
  import opened Canonical

  /** No code word shorter than l starts the bits. */
  ghost predicate NoneShorter(lens: Lengths, l: nat, bits: seq<bit>)
  {
    forall s | Coded(lens, s) && lens[s] < l :: !(Word(lens, s) <= bits)
  }

  /** The first n bits of `bits` are the number v, which may still grow into a code word of length n + 1. */
  ghost predicate Reading(lens: Lengths, n: nat, v: nat, bits: seq<bit>)
  {
    && n <= |bits| && bits[..n] == CodeBits(v, n) && v < Pow2(n)
    && First(lens, n + 1) <= 2 * v
    && NoneShorter(lens, n + 1, bits)
  }

  lemma NextBit(lens: Lengths, n: nat, v: nat, bits: seq<bit>, b: bit)
    requires Reading(lens, n, v, bits) && n < |bits| && bits[n] == b
    ensures bits[..n + 1] == CodeBits(2 * v + b, n + 1)
    ensures 2 * v + b < Pow2(n + 1)
  {
    assert bits[..n + 1] == bits[..n] + [b];
  }

  /** The bits read make up a code word: it is the one at that place of the sorted symbols. */
  lemma Hit(lens: Lengths, n: nat, v: nat, bits: seq<bit>, b: bit)
    requires Feasible(lens) && n < MAX_LENGTH
    requires Reading(lens, n, v, bits) && n < |bits| && bits[n] == b
    requires 2 * v + b < First(lens, n + 1) + Count(lens, n + 1)
    ensures var k := Offset(lens, n + 1) + (2 * v + b - First(lens, n + 1));
            && k < CodedCount(lens)
            && var s := SortedUpTo(lens, MAX_LENGTH)[k];
               Coded(lens, s) && Word(lens, s) == bits[..n + 1]
  {
    hide KraftSum, Pow2, OfLength, CodeBits, First, SortedUpTo, Offset;
    NextBit(lens, n, v, bits, b);
    WordOfLength(lens, n + 1, 2 * v + b);
    SortedAt(lens, n + 1, 2 * v + b - First(lens, n + 1));
  }

  lemma Miss(lens: Lengths, n: nat, v: nat, bits: seq<bit>, b: bit)
    requires Feasible(lens) && n < MAX_LENGTH
    requires Reading(lens, n, v, bits) && n < |bits| && bits[n] == b
    requires 2 * v + b >= First(lens, n + 1) + Count(lens, n + 1)
    ensures Reading(lens, n + 1, 2 * v + b, bits)
  {
    hide KraftSum, Pow2, OfLength, CodeBits;
    NextBit(lens, n, v, bits, b);
    forall s | Coded(lens, s) && lens[s] == n + 1
      ensures !(Word(lens, s) <= bits)
    {
      NoWordOfLength(lens, n + 1, 2 * v + b, s);
    }
  }

  // ----- Sorting the symbols in place

  ghost predicate PlaceHolds(lens: Lengths, i: nat, a: seq<nat>, l: nat, j: nat)
    requires i <= |lens| && j < Count(lens, l)
  {
    var k := Offset(lens, l) + j;
    k < |a| && a[k] / 16 == if j < Count(lens[..i], l) then OfLength(lens, l)[j] else 0
  }

  /** Symbol i is next: every entry still carries its own code-word length in the low four bits, and the
      symbols below i are at their places in the bits above. */
  ghost predicate Placed(lens: Lengths, i: nat, a: seq<nat>)
    requires i <= |lens|
  {
    && |a| == |lens|
    && (forall k | 0 <= k < |a| :: a[k] % 16 == lens[k])
    && (forall k | CodedCount(lens) <= k < |a| :: a[k] < 16)
    && forall l, j | 1 <= l <= MAX_LENGTH && 0 <= j < Count(lens, l) :: PlaceHolds(lens, i, a, l, j)
  }

  lemma PlacedAtStart(lens: Lengths)
    requires InRange(lens)
    ensures Placed(lens, 0, lens)
  {
    CountsAddUp(lens);
    forall l, j | 1 <= l <= MAX_LENGTH && 0 <= j < Count(lens, l)
      ensures PlaceHolds(lens, 0, lens, l, j)
    {
      SortedAt(lens, l, j);
      assert lens[..0] == [];
    }
  }

  lemma PlacedSkip(lens: Lengths, i: nat, a: seq<nat>)
    requires i < |lens| && lens[i] == 0 && Placed(lens, i, a)
    ensures Placed(lens, i + 1, a)
  {
    var n := i + 1;
    assert lens[..n][..i] == lens[..i];
    forall l, j | 1 <= l <= MAX_LENGTH && 0 <= j < Count(lens, l)
      ensures PlaceHolds(lens, n, a, l, j)
    {
      assert PlaceHolds(lens, i, a, l, j);
    }
  }

  lemma CountNext(lens: Lengths, i: nat, l: nat)
    requires i < |lens|
    ensures Count(lens[..i + 1], l) == Count(lens[..i], l) + if lens[i] == l then 1 else 0
  {
    assert lens[..i + 1][..i] == lens[..i];
  }

  lemma HoldsNext(lens: Lengths, i: nat, a: seq<nat>, l: nat, j: nat)
    requires i < |lens| && Coded(lens, i) && 1 <= l <= MAX_LENGTH && j < Count(lens, l) && PlaceHolds(lens, i, a, l, j)
    requires var k := Offset(lens, lens[i]) + Rank(lens, i); k < |a| && a[k] < 16
    ensures var k := Offset(lens, lens[i]) + Rank(lens, i);
            PlaceHolds(lens, i + 1, a[k := a[k] + 16 * i], l, j)
  {
    hide OfLength, Offset;
    var m, r := lens[i], Rank(lens, i);
    OfLengthFinds(lens, i);
    CountNext(lens, i, l);
    if Offset(lens, l) + j == Offset(lens, m) + r {
      PlacesDiffer(lens, l, j, m, r);
    }
  }

  /** The place of symbol i is free, so that setting its bits is adding them. */
  lemma PlacedStep(lens: Lengths, i: nat, a: seq<nat>)
    requires i < |lens| && Coded(lens, i) && Placed(lens, i, a)
    ensures var k := Offset(lens, lens[i]) + Rank(lens, i);
            k < |a| && a[k] < 16 && Placed(lens, i + 1, a[k := a[k] + 16 * i])
  {
    hide OfLength, Offset;
    var m, r := lens[i], Rank(lens, i);
    var k := Offset(lens, m) + r;
    OfLengthFinds(lens, i);
    SortedAt(lens, m, r);
    assert PlaceHolds(lens, i, a, m, r);
    var b := a[k := a[k] + 16 * i];
    var n := i + 1;
    forall l, j | 1 <= l <= MAX_LENGTH && 0 <= j < Count(lens, l)
      ensures PlaceHolds(lens, n, b, l, j)
    {
      assert PlaceHolds(lens, i, a, l, j);
      HoldsNext(lens, i, a, l, j);
    }
  }

  /** What huffman_init leaves in the caller's array. */
  ghost function SortedSymbols(lens: Lengths): (r: seq<nat>)
    requires InRange(lens)
    ensures |r| == |lens|
  {
    CountsAddUp(lens);
    SortedUpTo(lens, MAX_LENGTH) + seq(Count(lens, 0), _ => 0)
  }

  lemma PlacedAtEnd(lens: Lengths, a: seq<nat>, b: seq<nat>)
    requires InRange(lens) && Placed(lens, |lens|, a)
    requires |b| == |a| && forall k | 0 <= k < |a| :: b[k] == a[k] / 16
    ensures b == SortedSymbols(lens)
  {
    CountsAddUp(lens);
    assert lens[..|lens|] == lens;
    forall k | 0 <= k < |b|
      ensures b[k] == SortedSymbols(lens)[k]
    {
      if k < CodedCount(lens) {
        var l, j := Locate(lens, MAX_LENGTH, k);
        SortedAt(lens, l, j);
        assert PlaceHolds(lens, |lens|, a, l, j);
      }
    }
  }

  // ----- Reversed words and the entries of a table

  lemma ReverseNothing()
    ensures Reverse([]) == []
  {
  }

  lemma BitListCons(v: nat, n: nat, b: bit)
    ensures BitList(2 * v + b, n + 1) == [b] + BitList(v, n)
  {
    var w := 2 * v + b;
    assert w % 2 == b && w / 2 == v;
    assert BitList(w, n + 1) == [w % 2] + BitList(w / 2, n);
  }

  /** The low n bits of val in the opposite order. */
  method ReverseBits(val: nat, n: nat) returns (rev: nat)
    ensures BitList(rev, n) == CodeBits(val, n)
  {
    hide BitList, CodeBits, Reverse, BitAt;
    rev := 0;
    NoBits(0);
    NoBits(val);
    ReverseNothing();
    for k := 0 to n
      invariant BitList(rev, k) == Reverse(BitList(val, k))
    {
      var b := BitAt(val, k);
      BitListSnoc(val, k);
      ReverseSnoc(BitList(val, k), b);
      BitListCons(rev, k, b);
      rev := 2 * rev + b;
    }
    CodeBitsIsReverse(val, n);
  }

  ghost predicate EntryFor(lens: Lengths, s: nat, len: nat, rev: nat)
    requires Coded(lens, s)
  {
    len == lens[s] && BitList(rev, len) == Word(lens, s)
  }

  ghost predicate Entered(lens: Lengths, s: nat, table: seq<nat>)
    requires Coded(lens, s)
  {
    2 * s + 1 < |table| && EntryFor(lens, s, table[2 * s], table[2 * s + 1])
  }

  ghost function WithEntry(table: seq<nat>, s: nat, len: nat, rev: nat): seq<nat>
    requires 2 * s + 1 < |table|
  {
    table[2 * s := len][2 * s + 1 := rev]
  }

  lemma EnteredNext(lens: Lengths, s: nat, table: seq<nat>, rev: nat)
    requires Coded(lens, s) && 2 * s + 1 < |table| && EntryFor(lens, s, lens[s], rev)
    ensures var after := WithEntry(table, s, lens[s], rev);
            && Entered(lens, s, after)
            && forall t | Coded(lens, t) && Entered(lens, t, table) :: Entered(lens, t, after)
  {
    hide BitList, Word;
  }

  lemma RankIsUnique(lens: Lengths, l: nat, j: nat)
    requires j < Count(lens, l)
    ensures forall s | 0 <= s < |lens| && lens[s] == l && Rank(lens, s) == j :: s == OfLength(lens, l)[j]
  {
    forall s | 0 <= s < |lens| && lens[s] == l && Rank(lens, s) == j
      ensures s == OfLength(lens, l)[j]
    {
      OfLengthFinds(lens, s);
    }
  }

  // ----- The decoder

  lemma NoOffset(lens: Lengths)
    ensures Offset(lens, 1) == 0
  {
  }

  lemma EmptyCounts(lens: Lengths)
    ensures forall l :: l >= 0 ==> Count(lens[..0], l) == 0
  {
  }

  lemma LowBits(lens: Lengths, i: nat, a: seq<nat>)
    requires i < |lens| && Placed(lens, i, a)
    ensures |a| == |lens| && a[i] % 16 == lens[i]
  {
  }

  lemma StartReading(lens: Lengths, bits: seq<bit>)
    ensures Reading(lens, 0, 0, bits) && First(lens, 1) == 0 && Offset(lens, 1) == 0
  {
  }

  lemma NextOffsets(lens: Lengths, l: nat)
    requires l >= 1
    ensures First(lens, l + 1) == 2 * (First(lens, l) + Count(lens, l))
    ensures Offset(lens, l + 1) == Offset(lens, l) + Count(lens, l)
  {
  }

  method PutEntry(table: array<nat>, n: nat, ghost s: nat, sym: nat, len: nat, rev: nat)
    requires n <= table.Length && sym == 2 * s && sym + 1 < n
    modifies table
    ensures table[..n] == WithEntry(old(table[..n]), s, len, rev)
  {
    table[sym] := len;
    table[sym + 1] := rev;
  }

  class Huffman {
    var lengths: array<nat>   // how many symbols there are of each code-word length
    var symbols: array<nat>   // the coded symbols, ordered by length and value, then zeros
    var completed: bool

    // The code-word lengths the tables were built from.
    ghost var lens: Lengths

    ghost predicate Valid()
      reads this, lengths, symbols
    {
      && lengths.Length == 16
      && InRange(lens) && Feasible(lens)
      && (forall l | 1 <= l < 16 :: lengths[l] == Count(lens, l))
      && CodedCount(lens) <= symbols.Length
      && symbols[..CodedCount(lens)] == SortedUpTo(lens, MAX_LENGTH)
    }

    constructor (lengthCounts: array<nat>)
      requires lengthCounts.Length == 16
      ensures lengths == lengthCounts
    {
      lengths, symbols, completed := lengthCounts, new nat[0], false;
      lens := [];
    }

    // The first loop: lengths above 15 are refused.
    method CountLengths() returns (ok: bool)
      requires lengths.Length == 16 && lengths != symbols && lens == symbols[..]
      modifies lengths
      ensures ok == InRange(lens)
      ensures ok ==> forall l | 0 <= l < 16 :: lengths[l] == Count(lens, l)
    {
      hide OfLength;
      for i := 0 to 16
        invariant forall l | 0 <= l < i :: lengths[l] == 0
      {
        lengths[i] := 0;
      }
      EmptyCounts(lens);
      for i := 0 to symbols.Length
        invariant lens == symbols[..]
        invariant forall s | 0 <= s < i :: lens[s] <= MAX_LENGTH
        invariant forall l | 0 <= l < 16 :: lengths[l] == Count(lens[..i], l)
      {
        var len := symbols[i];
        assert len == lens[i];
        if len > 15 {
          return false;
        }
        forall l | 0 <= l < 16
          ensures Count(lens[..i + 1], l) == Count(lens[..i], l) + if lens[i] == l then 1 else 0
        {
          CountNext(lens, i, l);
        }
        lengths[len] := lengths[len] + 1;
      }
      assert lens[..symbols.Length] == lens;
      return true;
    }

    // The second loop: a negative result says that the lengths ask for too many code words.
    method CodeSpaceLeft() returns (t: int)
      requires lengths.Length == 16
      requires forall l | 0 <= l < 16 :: lengths[l] == Count(lens, l)
      ensures t < 0 <==> Left(lens, MAX_LENGTH) < 0
      ensures t >= 0 ==> t == Left(lens, MAX_LENGTH)
    {
      t := 1;
      for i := 1 to 16
        invariant t >= 0 && t == Left(lens, i - 1)
      {
        t := t * 2 - lengths[i];
        if t < 0 {
          LeftStaysNegative(lens, i, MAX_LENGTH);
          return;
        }
      }
    }

    // The remaining loops.
    method PlaceSymbols()
      requires lengths.Length == 16 && lengths != symbols && lens == symbols[..] && InRange(lens)
      requires forall l | 0 <= l < 16 :: lengths[l] == Count(lens, l)
      modifies symbols
      ensures symbols[..] == SortedSymbols(lens)
    {
      hide OfLength, Offset, SortedUpTo, Placed, SortedSymbols;
      var buf := new nat[16];
      buf[1] := 0;
      NoOffset(lens);
      for i := 1 to 15
        invariant symbols[..] == lens
        invariant forall l | 1 <= l <= i :: buf[l] == Offset(lens, l)
      {
        NextOffsets(lens, i);
        buf[i + 1] := lengths[i] + buf[i];
      }
      EmptyCounts(lens);
      PlacedAtStart(lens);
      for i := 0 to symbols.Length
        invariant Placed(lens, i, symbols[..])
        invariant forall l | 1 <= l < 16 :: buf[l] == Offset(lens, l) + Count(lens[..i], l)
        invariant forall l | 0 <= l < 16 :: lengths[l] == Count(lens, l)
      {
        LowBits(lens, i, symbols[..]);
        var len := symbols[i] % 16;
        var sym := 16 * i;
        forall l | 1 <= l < 16
          ensures Count(lens[..i + 1], l) == Count(lens[..i], l) + if lens[i] == l then 1 else 0
        {
          CountNext(lens, i, l);
        }
        if len == 0 {
          PlacedSkip(lens, i, symbols[..]);
          continue;
        }
        PlacedStep(lens, i, symbols[..]);
        var k := buf[len];
        assert symbols[k] < 16;
        ghost var before := symbols[..];
        symbols[k] := symbols[k] + sym;
        assert symbols[..] == before[k := before[k] + sym];
        buf[len] := buf[len] + 1;
      }
      ghost var placed := symbols[..];
      for i := 0 to symbols.Length
        invariant forall k | 0 <= k < i :: symbols[k] == placed[k] / 16
        invariant forall k | i <= k < symbols.Length :: symbols[k] == placed[k]
      {
        symbols[i] := symbols[i] / 16;
      }
      PlacedAtEnd(lens, placed, symbols[..]);
    }

    /** huffman_init: turns the array of code-word lengths, in place, into the sorted array of symbols. */
    method Init(syms: array<nat>) returns (r: int)
      requires lengths.Length == 16 && lengths != syms
      requires syms.Length < 0x1000_0000
      modifies this, lengths, syms
      ensures symbols == syms && lengths == old(lengths) && lens == old(syms[..])
      ensures r == if !InRange(lens) then -1 else if !Feasible(lens) then -2 else 0
      ensures r != 0 ==> syms[..] == lens
      ensures r == 0 ==> Valid() && syms[..] == SortedSymbols(lens)
      ensures r == 0 ==> completed == (KraftSum(lens) == Pow2(MAX_LENGTH))
    {
      hide KraftSum, Pow2, OfLength, Offset, SortedUpTo, Left;
      symbols, completed, lens := syms, false, syms[..];
      var counted := CountLengths();
      if !counted {
        return -1;
      }
      CountsAddUp(lens);
      if lengths[0] != syms.Length {
        var t := CodeSpaceLeft();
        LeftIsKraft(lens);
        if t < 0 {
          return -2;
        }
        completed := t == 0;
        PlaceSymbols();
      } else {
        NothingCoded(lens);
        ShiftOne(MAX_LENGTH);
        assert syms[..] == SortedSymbols(lens);
      }
      assert SortedSymbols(lens)[..CodedCount(lens)] == SortedUpTo(lens, MAX_LENGTH);
      return 0;
    }

    /** huffman_fetch: one symbol of the stream.

        The result is the one symbol whose code word the stream starts with, and exactly that word is
        consumed; -2 when 15 bits are no code word and -1 when the stream ends first.
     */
    method Fetch(b: BitArray) returns (r: int)
      requires Valid() && b.Valid()
      modifies b
      ensures b.Valid() && b.SuppliedFrom(old(b.data), old(b.refills))
      ensures r >= 0 ==> Coded(lens, r) && old(b.Stream()) == Word(lens, r) + b.Stream()
      ensures r < 0 ==> forall s | Coded(lens, s) :: !(Word(lens, s) <= old(b.Stream()))
      ensures r < 0 ==> r == if |old(b.Stream())| < MAX_LENGTH then -1 else -2
    {
      hide BitArray.Stream, KraftSum, Pow2, OfLength, CodeBits, First, SortedUpTo, Offset;
      var base: nat, off: nat, val: nat := 0, 0, 0;
      var i := 1;
      ghost var all := b.Stream();
      StartReading(lens, all);

      while i < 16
        invariant b.Valid() && 1 <= i <= 16
        invariant b.SuppliedFrom(old(b.data), old(b.refills))
        invariant i - 1 <= |all| && b.Stream() == all[i - 1..]
        invariant Reading(lens, i - 1, val, all)
        invariant base == First(lens, i) && off == Offset(lens, i)
      {
        var next := b.ReadBit();
        if next < 0 {
          assert all[..i - 1] == all;
          return -1;
        }
        var len := lengths[i];
        i := i + 1;
        if 2 * val + next < base + len {
          Hit(lens, i - 2, val, all, next);
        } else {
          Miss(lens, i - 2, val, all, next);
        }
        val := 2 * val + next;
        if val < base + len {
          var n := val - base;
          assert symbols[off + n] == symbols[..CodedCount(lens)][off + n];
          return symbols[off + n];
        }
        off := off + len;
        base := (base + len) * 2;
        NextOffsets(lens, i - 1);
      }
      return -2;
    }

    /** huffman_table: for every symbol the length of its code word and the word with its bits reversed,
        which is what bitarray_shove packs. */
    method Table(table: array<nat>, n: int) returns (r: int)
      requires Valid() && n <= table.Length && table != lengths
      modifies if table == symbols then {} else {table}
      ensures Valid()
      ensures r == if table == symbols || n < 0 || n != 2 * CodedCount(lens) then -1
                   else if forall s | Coded(lens, s) :: 2 * s < n then 0 else -2
      ensures r == 0 ==> forall s | Coded(lens, s) :: 2 * s + 1 < n && EntryFor(lens, s, table[2 * s], table[2 * s + 1])
    {
      hide KraftSum, Pow2, OfLength, Offset, First, SortedUpTo, BitList, CodeBits;
      if table == symbols || n < 0 {
        return -1;
      }
      for i := 0 to n {
        table[i] := 0;
      }
      var sum := 0;
      StartReading(lens, []);
      for i := 1 to 16
        invariant sum == Offset(lens, i)
        invariant Valid()
      {
        NextOffsets(lens, i);
        sum := sum + lengths[i];
      }
      if sum * 2 != n {
        return -1;
      }

      var off: nat, val: nat := 0, 0;
      for i := 1 to 16
        invariant Valid()
        invariant off == Offset(lens, i) && val == First(lens, i)
        invariant forall s | Coded(lens, s) && lens[s] < i :: Entered(lens, s, table[..n])
      {
        var len := lengths[i];
        for j := 0 to len
          invariant Valid() && lengths[i] == len
          invariant val == First(lens, i) + j
          invariant forall s | Coded(lens, s) && lens[s] < i :: Entered(lens, s, table[..n])
          invariant forall s | Coded(lens, s) && lens[s] == i && Rank(lens, s) < j :: Entered(lens, s, table[..n])
        {
          SortedAt(lens, i, j);
          OfLengthMember(lens, i, j);
          assert symbols[off + j] == symbols[..CodedCount(lens)][off + j];
          ghost var s := OfLength(lens, i)[j];
          var sym := symbols[off + j] * 2;
          if sym >= n {
            assert Coded(lens, s) && 2 * s >= n;
            return -2;
          }
          var rev := ReverseBits(val, i);
          ghost var before: seq<nat> := table[..n];
          PutEntry(table, n, s, sym, i, rev);
          EnteredNext(lens, s, before, rev);
          RankIsUnique(lens, i, j);
          val := val + 1;
        }
        forall s | Coded(lens, s) && lens[s] == i
          ensures Rank(lens, s) < len
        {
          OfLengthFinds(lens, s);
        }
        NextOffsets(lens, i);
        val := 2 * val;
        off := off + len;
      }
      assert forall s | Coded(lens, s) :: Entered(lens, s, table[..n]);
      return 0;
    }
  }
}
