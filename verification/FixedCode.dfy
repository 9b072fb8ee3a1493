/** The fixed Huffman codes of deflate (section 3.2.6 of RFC 1951): the canonical codes of the lengths that
    inflate_init fills in are the code words that the RFC tabulates.
 */
module FixedCodes {
  import opened BitStrings
  import opened Canonical

  const CODE_SYMBOLS: nat := 288
  const DIST_SYMBOLS: nat := 32

  function CodeLength(s: nat): nat
  {
    if s <= 143 then 8 else if s <= 255 then 9 else if s <= 279 then 7 else 8
  }

  ghost function CodeLengths(n: nat): Lengths
  {
    seq(n, s requires 0 <= s => CodeLength(s))
  }

  ghost function DistLengths(n: nat): Lengths
  {
    seq(n, s => 5)
  }

  /** The table of section 3.2.6. */
  function RfcCode(s: nat): nat
  {
    if s <= 143 then 0x30 + s
    else if s <= 255 then 0x190 + (s - 144)
    else if s <= 279 then s - 256
    else 0xC0 + (s - 280)
  }

  function Clamp(x: int, max: nat): nat
  {
    if x < 0 then 0 else if x > max then max else x
  }

  /** How many of the first n symbols have code words of length l. */
  function CodeCount(n: nat, l: nat): nat
  {
    if l == 7 then Clamp(n - 256, 24)
    else if l == 8 then Clamp(n, 144) + Clamp(n - 280, n)
    else if l == 9 then Clamp(n - 144, 112)
    else 0
  }

  lemma {:induction false} CountCodes(n: nat, l: nat)
    ensures Count(CodeLengths(n), l) == CodeCount(n, l)
  {
    if n > 0 {
      CountCodes(n - 1, l);
      assert CodeLengths(n)[..n - 1] == CodeLengths(n - 1);
    }
  }

  lemma {:induction false} CountDists(n: nat, l: nat)
    ensures Count(DistLengths(n), l) == if l == 5 then n else 0
  {
    if n > 0 {
      CountDists(n - 1, l);
      assert DistLengths(n)[..n - 1] == DistLengths(n - 1);
    }
  }

  lemma {:induction false} FirstAfterGap(lens: Lengths, l: nat)
    requires forall k | 1 <= k < l :: Count(lens, k) == 0
    ensures First(lens, l) == 0
  {
    if l > 1 {
      FirstAfterGap(lens, l - 1);
    }
  }

  /** A code whose last used length exhausts the code words is feasible. */
  lemma ExactCode(lens: Lengths, l: nat)
    requires 1 <= l <= MAX_LENGTH
    requires First(lens, l) + Count(lens, l) == Pow2(l)
    requires forall k | l < k <= MAX_LENGTH :: Count(lens, k) == 0
    ensures KraftSum(lens) == Pow2(MAX_LENGTH)
  {
    hide First, Pow2, KraftSum, OfLength;
    LeftAndFirst(lens, l);
    for k := l to MAX_LENGTH
      invariant Left(lens, k) == 0
    {
    }
    LeftIsKraft(lens);
  }

  lemma CountAllCodes()
    ensures forall l :: l >= 0 ==> Count(CodeLengths(CODE_SYMBOLS), l) == CodeCount(CODE_SYMBOLS, l)
  {
    forall l: nat {
      CountCodes(CODE_SYMBOLS, l);
    }
  }

  lemma FirstCodes(lens: Lengths)
    requires lens == CodeLengths(CODE_SYMBOLS)
    ensures First(lens, 7) == 0 && First(lens, 8) == 0x30 && First(lens, 9) == 0x190
  {
    CountAllCodes();
    FirstAfterGap(lens, 7);
    assert Count(lens, 7) == 24 && Count(lens, 8) == 152;
    assert First(lens, 8) == 2 * (First(lens, 7) + Count(lens, 7));
  }

  lemma CodeIsFeasible()
    ensures InRange(CodeLengths(CODE_SYMBOLS)) && Feasible(CodeLengths(CODE_SYMBOLS))
  {
    var lens := CodeLengths(CODE_SYMBOLS);
    CountAllCodes();
    FirstCodes(lens);
    assert Pow2(9) == 512;
    ExactCode(lens, 9);
  }

  lemma DistIsFeasible()
    ensures InRange(DistLengths(DIST_SYMBOLS)) && Feasible(DistLengths(DIST_SYMBOLS))
  {
    var lens := DistLengths(DIST_SYMBOLS);
    forall l: nat
      ensures Count(lens, l) == if l == 5 then 32 else 0
    {
      CountDists(DIST_SYMBOLS, l);
    }
    FirstAfterGap(lens, 5);
    assert Pow2(5) == 32;
    ExactCode(lens, 5);
  }

  /** The words of the first code are the tabulated ones. */
  lemma CodeWords(s: nat)
    requires s < CODE_SYMBOLS
    ensures var lens := CodeLengths(CODE_SYMBOLS);
            Coded(lens, s) && Word(lens, s) == CodeBits(RfcCode(s), CodeLength(s))
  {
    hide OfLength, First;
    var lens := CodeLengths(CODE_SYMBOLS);
    FirstCodes(lens);
    assert lens[..s] == CodeLengths(s);
    CountCodes(s, CodeLength(s));
  }

  /** The words of the distance code are the plain five-bit numbers. */
  lemma DistWords(s: nat)
    requires s < DIST_SYMBOLS
    ensures var lens := DistLengths(DIST_SYMBOLS);
            Coded(lens, s) && Word(lens, s) == CodeBits(s, 5)
  {
    var lens := DistLengths(DIST_SYMBOLS);
    assert lens[..s] == DistLengths(s);
    CountDists(s, 5);
    forall l | 1 <= l < 5
      ensures Count(lens, l) == 0
    {
      CountDists(DIST_SYMBOLS, l);
    }
    FirstAfterGap(lens, 5);
  }

  /** The ends of the four ranges in the table: 00110000 to 10111111, 110010000 to 111111111, 0000000 to 0010111 and
      11000000 to 11000111. */
  lemma RangesOfTable(s: nat)
    requires s < CODE_SYMBOLS
    ensures RfcCode(0) == 0x30 && RfcCode(143) == 0xBF && (s <= 143 ==> CodeLength(s) == 8)
    ensures RfcCode(144) == 0x190 && RfcCode(255) == 0x1FF && (144 <= s <= 255 ==> CodeLength(s) == 9)
    ensures RfcCode(256) == 0 && RfcCode(279) == 0x17 && (256 <= s <= 279 ==> CodeLength(s) == 7)
    ensures RfcCode(280) == 0xC0 && RfcCode(287) == 0xC7 && (280 <= s ==> CodeLength(s) == 8)
    ensures s !in {143, 255, 279} ==> RfcCode(s + 1) == RfcCode(s) + 1
  {
  }
}
