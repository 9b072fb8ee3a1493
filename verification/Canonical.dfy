/** Canonical prefix codes (section 3.2.2 of RFC 1951), independent of how the code below computes them.

    A code is given by the code-word length of every symbol; length 0 means that the symbol is not coded.
 */
module Canonical {
  import opened BitStrings

  const MAX_LENGTH: nat := 15

  type Lengths = seq<nat>

  ghost predicate InRange(lens: Lengths)
  {
    forall s | 0 <= s < |lens| :: lens[s] <= MAX_LENGTH
  }

  ghost predicate Coded(lens: Lengths, s: int)
  {
    0 <= s < |lens| && 1 <= lens[s] <= MAX_LENGTH
  }

  /** The symbols with code words of length l, in increasing order. */
  ghost function OfLength(lens: Lengths, l: nat): (r: seq<nat>)
    ensures |r| <= |lens|
  {
    if lens == [] then []
    else
      var s := |lens| - 1;
      OfLength(lens[..s], l) + if lens[s] == l then [s] else []
  }

  ghost function Count(lens: Lengths, l: nat): nat
  {
    |OfLength(lens, l)|
  }

  /** The symbol's position among those that share its length. */
  ghost function Rank(lens: Lengths, s: nat): nat
    requires s < |lens|
  {
    |OfLength(lens[..s], lens[s])|
  }

  /** The smallest code word of length l: those of the shorter lengths, and their extensions, come first. */
  ghost function First(lens: Lengths, l: nat): nat
  {
    if l <= 1 then 0 else 2 * (First(lens, l - 1) + Count(lens, l - 1))
  }

  ghost function Code(lens: Lengths, s: nat): nat
    requires Coded(lens, s)
  {
    First(lens, lens[s]) + Rank(lens, s)
  }

  ghost function Word(lens: Lengths, s: nat): (w: seq<bit>)
    requires Coded(lens, s)
    ensures |w| == lens[s]
  {
    CodeBits(Code(lens, s), lens[s])
  }

  /** How many symbols have code words shorter than l. */
  ghost function Offset(lens: Lengths, l: nat): nat
  {
    if l <= 1 then 0 else Offset(lens, l - 1) + Count(lens, l - 1)
  }

  /** The coded symbols ordered by length and then by value, up to and including length l. */
  ghost function SortedUpTo(lens: Lengths, l: nat): (r: seq<nat>)
    ensures |r| == Offset(lens, l + 1)
  {
    if l == 0 then [] else SortedUpTo(lens, l - 1) + OfLength(lens, l)
  }

  ghost function CodedCount(lens: Lengths): nat
  {
    Offset(lens, MAX_LENGTH + 1)
  }

  /** The sum of 2^(15 - length) over the coded symbols: the Kraft sum, scaled to an integer. */
  ghost function KraftSum(lens: Lengths): nat
  {
    if lens == [] then 0
    else
      var s := |lens| - 1;
      KraftSum(lens[..s]) + if Coded(lens, s) then Pow2(MAX_LENGTH - lens[s]) else 0
  }

  /** No more code words are asked for than there are. */
  ghost predicate Feasible(lens: Lengths)
  {
    KraftSum(lens) <= Pow2(MAX_LENGTH)
  }

  // ----- Symbols of one length

  lemma {:induction false} OfLengthMember(lens: Lengths, l: nat, k: nat)
    requires k < Count(lens, l)
    ensures var s := OfLength(lens, l)[k]; s < |lens| && lens[s] == l && Rank(lens, s) == k
    decreases |lens|
  {
    var s := |lens| - 1;
    if k < Count(lens[..s], l) {
      OfLengthMember(lens[..s], l, k);
      var t := OfLength(lens[..s], l)[k];
      assert lens[..s][..t] == lens[..t];
    }
  }

  lemma {:induction false} OfLengthFinds(lens: Lengths, s: nat)
    requires s < |lens|
    ensures Rank(lens, s) < Count(lens, lens[s]) && OfLength(lens, lens[s])[Rank(lens, s)] == s
    decreases |lens|
  {
    var last := |lens| - 1;
    if s < last {
      OfLengthFinds(lens[..last], s);
      assert lens[..last][..s] == lens[..s];
    }
  }

  // ----- Code words of different lengths

  /** Beyond the words of length l, the words of length m start where the extensions of those words end. */
  lemma {:induction false} FirstGrows(lens: Lengths, l: nat, m: nat)
    requires 1 <= l < m
    ensures First(lens, m) >= Shift(First(lens, l) + Count(lens, l), m - l)
    decreases m
  {
    hide OfLength, Count;
    var x := First(lens, l) + Count(lens, l);
    if l + 1 < m {
      FirstGrows(lens, l, m - 1);
      assert Shift(x, m - l) == 2 * Shift(x, m - 1 - l);
    } else {
      assert Shift(x, 1) == 2 * x;
    }
  }

  /** Scaled down: t of the code below is what is left of the code space after length l. */
  ghost function Left(lens: Lengths, l: nat): int
  {
    if l == 0 then 1 else 2 * Left(lens, l - 1) - Count(lens, l)
  }

  lemma {:induction false} LeftAndFirst(lens: Lengths, l: nat)
    ensures l >= 1 ==> First(lens, l) + Count(lens, l) + Left(lens, l) == Pow2(l)
  {
    if l == 1 {
      assert Left(lens, 0) == 1;
    } else if l > 1 {
      LeftAndFirst(lens, l - 1);
    }
  }

  lemma {:induction false} LeftStaysNegative(lens: Lengths, l: nat, m: nat)
    requires l <= m && Left(lens, l) < 0
    ensures Left(lens, m) < 0
    decreases m
  {
    if l < m {
      LeftStaysNegative(lens, l, m - 1);
    }
  }

  ghost function WeightUpTo(lens: Lengths, l: nat): int
    requires l <= MAX_LENGTH
  {
    if l == 0 then 0 else WeightUpTo(lens, l - 1) + Shift(Count(lens, l), MAX_LENGTH - l)
  }

  lemma {:induction false} LeftIsWeight(lens: Lengths, l: nat)
    requires l <= MAX_LENGTH
    ensures Shift(Left(lens, l), MAX_LENGTH - l) + WeightUpTo(lens, l) == Pow2(MAX_LENGTH)
  {
    if l == 0 {
      ShiftOne(MAX_LENGTH);
    } else {
      LeftIsWeight(lens, l - 1);
      var x, n := Left(lens, l - 1), MAX_LENGTH - l;
      ShiftSum(x, x, n);
      ShiftSum(2 * x, Count(lens, l), n);
    }
  }

  lemma {:induction false} WeightSnoc(lens: Lengths, l: nat)
    requires lens != [] && l <= MAX_LENGTH
    ensures var s := |lens| - 1;
            WeightUpTo(lens, l) == WeightUpTo(lens[..s], l) + if 1 <= lens[s] <= l then Pow2(MAX_LENGTH - lens[s]) else 0
  {
    if l > 0 {
      WeightSnoc(lens, l - 1);
      var s := |lens| - 1;
      ShiftSum(Count(lens[..s], l), 1, MAX_LENGTH - l);
      ShiftOne(MAX_LENGTH - l);
    }
  }

  lemma {:induction false} WeightOfNothing(l: nat)
    requires l <= MAX_LENGTH
    ensures WeightUpTo([], l) == 0
  {
    if l > 0 {
      WeightOfNothing(l - 1);
      ShiftOne(MAX_LENGTH - l);
    }
  }

  lemma {:induction false} WeightIsKraft(lens: Lengths)
    ensures WeightUpTo(lens, MAX_LENGTH) == KraftSum(lens)
  {
    if lens == [] {
      WeightOfNothing(MAX_LENGTH);
    } else {
      WeightIsKraft(lens[..|lens| - 1]);
      WeightSnoc(lens, MAX_LENGTH);
    }
  }

  /** The running check of the code space and the Kraft sum agree. */
  lemma LeftIsKraft(lens: Lengths)
    ensures Left(lens, MAX_LENGTH) == Pow2(MAX_LENGTH) - KraftSum(lens)
  {
    LeftIsWeight(lens, MAX_LENGTH);
    WeightIsKraft(lens);
  }

  lemma LeftNonnegative(lens: Lengths, l: nat)
    requires Feasible(lens) && l <= MAX_LENGTH
    ensures Left(lens, l) >= 0
  {
    LeftIsKraft(lens);
    if Left(lens, l) < 0 {
      LeftStaysNegative(lens, l, MAX_LENGTH);
    }
  }

  lemma CodeFits(lens: Lengths, s: nat)
    requires Feasible(lens) && Coded(lens, s)
    ensures Code(lens, s) < First(lens, lens[s]) + Count(lens, lens[s]) <= Pow2(lens[s])
  {
    OfLengthFinds(lens, s);
    LeftNonnegative(lens, lens[s]);
    LeftAndFirst(lens, lens[s]);
  }

  /** Reading the bits v of length l, a reader knows that they are a code word as soon as v is below the bound. */
  lemma WordOfLength(lens: Lengths, l: nat, v: nat)
    requires Feasible(lens) && 1 <= l <= MAX_LENGTH
    requires First(lens, l) <= v < First(lens, l) + Count(lens, l)
    ensures var s := OfLength(lens, l)[v - First(lens, l)];
            Coded(lens, s) && lens[s] == l && Word(lens, s) == CodeBits(v, l)
  {
    hide KraftSum, First, OfLength, CodeBits, Pow2;
    OfLengthMember(lens, l, v - First(lens, l));
  }

  /** ... and that they are no beginning of one otherwise. */
  lemma NoWordOfLength(lens: Lengths, l: nat, v: nat, s: nat)
    requires Feasible(lens) && Coded(lens, s) && lens[s] == l
    requires First(lens, l) + Count(lens, l) <= v < Pow2(l)
    ensures Word(lens, s) != CodeBits(v, l)
  {
    CodeFits(lens, s);
    if Word(lens, s) == CodeBits(v, l) {
      CodeBitsInjective(Code(lens, s), v, l);
    }
  }

  lemma {:induction false} QuotientBounds(v: nat, m: nat, l: nat, x: nat)
    requires l <= m && Shift(x, m - l) <= v < Pow2(m)
    ensures x <= v / Pow2(m - l) < Pow2(l)
    decreases m - l
  {
    if l < m {
      DivPow2(v, m - l);
      QuotientBounds(v / 2, m - 1, l, x);
    }
  }

  /** No code word begins another one. */
  lemma PrefixFree(lens: Lengths, s: nat, t: nat)
    requires Feasible(lens) && Coded(lens, s) && Coded(lens, t) && s != t
    ensures !(Word(lens, s) <= Word(lens, t))
  {
    hide KraftSum, First, OfLength, CodeBits, Pow2, Shift;
    var l, m := lens[s], lens[t];
    CodeFits(lens, s);
    CodeFits(lens, t);
    OfLengthFinds(lens, s);
    OfLengthFinds(lens, t);
    if l == m {
      if Word(lens, s) == Word(lens, t) {
        CodeBitsInjective(Code(lens, s), Code(lens, t), l);
      }
    } else if l < m {
      FirstGrows(lens, l, m);
      CodeBitsPrefix(Code(lens, t), m, l);
      QuotientBounds(Code(lens, t), m, l, First(lens, l) + Count(lens, l));
      if Word(lens, s) <= Word(lens, t) {
        NoWordOfLength(lens, l, Code(lens, t) / Pow2(m - l), s);
      }
    }
  }

  /** Two words that begin the same bits are the same. */
  lemma SameWord(lens: Lengths, s: nat, t: nat, bits: seq<bit>)
    requires Feasible(lens) && Coded(lens, s) && Coded(lens, t)
    requires Word(lens, s) <= bits && Word(lens, t) <= bits
    ensures s == t
  {
    if s != t {
      if lens[s] <= lens[t] {
        assert Word(lens, s) <= Word(lens, t);
        PrefixFree(lens, s, t);
      } else {
        assert Word(lens, t) <= Word(lens, s);
        PrefixFree(lens, t, s);
      }
    }
  }

  // ----- The sorted symbols

  lemma {:induction false} OffsetMonotone(lens: Lengths, l: nat, m: nat)
    requires l <= m
    ensures Offset(lens, l) <= Offset(lens, m)
    decreases m
  {
    if l < m {
      OffsetMonotone(lens, l, m - 1);
    }
  }

  lemma {:induction false} SortedPrefix(lens: Lengths, l: nat, m: nat)
    requires l <= m
    ensures SortedUpTo(lens, l) <= SortedUpTo(lens, m)
    decreases m
  {
    if l < m {
      SortedPrefix(lens, l, m - 1);
    }
  }

  lemma SortedAt(lens: Lengths, l: nat, k: nat)
    requires 1 <= l <= MAX_LENGTH && k < Count(lens, l)
    ensures Offset(lens, l) + k < CodedCount(lens)
    ensures SortedUpTo(lens, MAX_LENGTH)[Offset(lens, l) + k] == OfLength(lens, l)[k]
  {
    hide OfLength;
    OffsetMonotone(lens, l + 1, MAX_LENGTH + 1);
    SortedPrefix(lens, l, MAX_LENGTH);
  }

  /** Every place among the sorted symbols belongs to one length, and places of different symbols differ. */
  lemma {:induction false} Locate(lens: Lengths, l: nat, k: nat) returns (m: nat, j: nat)
    requires k < Offset(lens, l + 1)
    ensures 1 <= m <= l && j < Count(lens, m) && k == Offset(lens, m) + j
  {
    if k >= Offset(lens, l) {
      m, j := l, k - Offset(lens, l);
    } else {
      m, j := Locate(lens, l - 1, k);
    }
  }

  lemma PlacesDiffer(lens: Lengths, l: nat, j: nat, m: nat, k: nat)
    requires 1 <= l && 1 <= m && j < Count(lens, l) && k < Count(lens, m)
    requires Offset(lens, l) + j == Offset(lens, m) + k
    ensures l == m && j == k
  {
    if l < m {
      OffsetMonotone(lens, l + 1, m);
    } else if m < l {
      OffsetMonotone(lens, m + 1, l);
    }
  }

  lemma {:induction false} OffsetSnoc(lens: Lengths, l: nat)
    requires lens != []
    ensures var s := |lens| - 1;
            Offset(lens, l) == Offset(lens[..s], l) + if 1 <= lens[s] < l then 1 else 0
  {
    if l > 1 {
      OffsetSnoc(lens, l - 1);
    }
  }

  lemma {:induction false} OffsetOfNothing(l: nat)
    ensures Offset([], l) == 0
  {
    if l > 1 {
      OffsetOfNothing(l - 1);
    }
  }

  lemma {:induction false} CountsAddUp(lens: Lengths)
    requires InRange(lens)
    ensures Count(lens, 0) + CodedCount(lens) == |lens|
  {
    if lens == [] {
      OffsetOfNothing(MAX_LENGTH + 1);
    } else {
      CountsAddUp(lens[..|lens| - 1]);
      OffsetSnoc(lens, MAX_LENGTH + 1);
    }
  }

  lemma {:induction false} NothingCoded(lens: Lengths)
    requires InRange(lens) && Count(lens, 0) == |lens|
    ensures KraftSum(lens) == 0 < Pow2(MAX_LENGTH) && CodedCount(lens) == 0
    ensures forall s | 0 <= s < |lens| :: lens[s] == 0
  {
    CountsAddUp(lens);
    if lens != [] {
      NothingCoded(lens[..|lens| - 1]);
    }
  }

  // ----- The two rules of section 3.2.2 of RFC 1951

  lemma {:induction false} UpToRises(lens: Lengths, s: nat, t: nat, l: nat)
    requires s < t <= |lens| && lens[s] == l
    ensures |OfLength(lens[..s], l)| < |OfLength(lens[..t], l)|
    ensures (forall u | s < u < t :: lens[u] != l) ==> |OfLength(lens[..t], l)| == |OfLength(lens[..s], l)| + 1
    decreases t
  {
    assert lens[..t][..t - 1] == lens[..t - 1];
    if s < t - 1 {
      UpToRises(lens, s, t - 1, l);
    }
  }

  lemma RankRises(lens: Lengths, s: nat, t: nat)
    requires s < t < |lens| && lens[s] == lens[t]
    ensures Rank(lens, s) < Rank(lens, t)
    ensures (forall u | s < u < t :: lens[u] != lens[s]) ==> Rank(lens, t) == Rank(lens, s) + 1
  {
    UpToRises(lens, s, t, lens[s]);
  }

  /** Code words of the same length count up in the order of their symbols. */
  lemma SameLengthCountsUp(lens: Lengths, s: nat, t: nat)
    requires Coded(lens, s) && Coded(lens, t) && s < t && lens[s] == lens[t]
    ensures Code(lens, s) < Code(lens, t)
    ensures (forall u | s < u < t :: lens[u] != lens[s]) ==> Code(lens, t) == Code(lens, s) + 1
  {
    hide OfLength, First;
    RankRises(lens, s, t);
  }

  lemma {:induction false} ShiftMonotone(a: int, b: int, n: nat)
    requires a <= b
    ensures Shift(a, n) <= Shift(b, n)
  {
    if n > 0 {
      ShiftMonotone(a, b, n - 1);
    }
  }

  /** Shorter code words come in front of longer ones: the number at the start of the longer one is greater. */
  lemma ShorterComesFirst(lens: Lengths, s: nat, t: nat)
    requires Feasible(lens) && Coded(lens, s) && Coded(lens, t) && lens[s] < lens[t]
    ensures Code(lens, s) < Code(lens, t) / Pow2(lens[t] - lens[s])
  {
    hide OfLength, First, KraftSum, Pow2, Shift;
    var l, m := lens[s], lens[t];
    CodeFits(lens, s);
    CodeFits(lens, t);
    FirstGrows(lens, l, m);
    ShiftMonotone(Code(lens, s) + 1, First(lens, l) + Count(lens, l), m - l);
    QuotientBounds(Code(lens, t), m, l, Code(lens, s) + 1);
  }
}
