/** What a deflate block with the fixed codes says (section 3.2 of RFC 1951): tokens, their bits, and the
    bytes they stand for.
 */
module Deflate {
  import opened Machine
  import opened Sequences
  import opened BitStrings
  import opened FixedCodes

  datatype BitCode = BitCode(extra: nat, value: nat)

  // length_codes, for the symbols 257 and up.
  const LENGTH_CODES: seq<BitCode> := [
    BitCode(0, 3), BitCode(0, 4), BitCode(0, 5), BitCode(0, 6), BitCode(0, 7),
    BitCode(0, 8), BitCode(0, 9), BitCode(0, 10), BitCode(1, 11), BitCode(1, 13),
    BitCode(1, 15), BitCode(1, 17), BitCode(2, 19), BitCode(2, 23), BitCode(2, 27),
    BitCode(2, 31), BitCode(3, 35), BitCode(3, 43), BitCode(3, 51), BitCode(3, 59),
    BitCode(4, 67), BitCode(4, 83), BitCode(4, 99), BitCode(4, 115), BitCode(5, 131),
    BitCode(5, 163), BitCode(5, 195), BitCode(5, 227), BitCode(0, 258)
  ]

  // distance_codes; the last entry is never reached.
  const DISTANCE_CODES: seq<BitCode> := [
    BitCode(0, 1), BitCode(0, 2), BitCode(0, 3), BitCode(0, 4), BitCode(1, 5), BitCode(1, 7),
    BitCode(2, 9), BitCode(2, 13), BitCode(3, 17), BitCode(3, 25), BitCode(4, 33), BitCode(4, 49),
    BitCode(5, 65), BitCode(5, 97), BitCode(6, 129), BitCode(6, 193), BitCode(7, 257), BitCode(7, 385),
    BitCode(8, 513), BitCode(8, 769), BitCode(9, 1025), BitCode(9, 1537), BitCode(10, 2049), BitCode(10, 3073),
    BitCode(11, 4097), BitCode(11, 6145), BitCode(12, 8193), BitCode(12, 12289), BitCode(13, 16385),
    BitCode(13, 24577), BitCode(0, 65535)
  ]

  const LENGTHS: nat := 29
  const DISTANCES: nat := 30

  lemma TablesInRange()
    ensures |LENGTH_CODES| == 29 && |DISTANCE_CODES| == 31
    ensures forall k | 0 <= k < |LENGTH_CODES| :: LENGTH_CODES[k].extra <= 13
    ensures forall k | 0 <= k < |DISTANCE_CODES| :: DISTANCE_CODES[k].extra <= 13
  {
  }

  /** No length below 3 or above 258 and no distance below 1 or above 32768 can be said. */
  lemma BasesInRange()
    ensures forall k | 0 <= k < LENGTHS ::
              3 <= LENGTH_CODES[k].value && LENGTH_CODES[k].value + Pow2(LENGTH_CODES[k].extra) - 1 <= 258
    ensures forall k | 0 <= k < DISTANCES ::
              1 <= DISTANCE_CODES[k].value && DISTANCE_CODES[k].value + Pow2(DISTANCE_CODES[k].extra) - 1 <= 32768
  {
    PowersUpTo5();
    PowersUpTo13();
  }

  lemma PowersUpTo5()
    ensures Pow2(0) == 1 && Pow2(1) == 2 && Pow2(2) == 4 && Pow2(3) == 8 && Pow2(4) == 16 && Pow2(5) == 32
  {
  }

  lemma PowersUpTo13()
    ensures Pow2(6) == 64 && Pow2(7) == 128 && Pow2(8) == 256 && Pow2(9) == 512 && Pow2(10) == 1024
    ensures Pow2(11) == 2048 && Pow2(12) == 4096 && Pow2(13) == 8192
  {
    PowersUpTo5();
  }

  /** Section 3.2.5 of RFC 1951 in closed form: the number of extra bits grows by one with every fourth length symbol
      behind the first four, each symbol begins where the one before ends, and 258 has a symbol of its own. */
  lemma LengthTable()
    ensures LENGTH_CODES[0].value == 3 && LENGTH_CODES[28] == BitCode(0, 258)
    ensures forall k | 0 <= k < 28 :: LENGTH_CODES[k].extra == if k < 4 then 0 else (k - 4) / 4
    ensures forall k | 0 <= k < 27 :: LENGTH_CODES[k + 1].value == LENGTH_CODES[k].value + Pow2(LENGTH_CODES[k].extra)
  {
    PowersUpTo5();
  }

  /** The same for distances, where it grows with every other symbol behind the first two. */
  lemma DistanceTable()
    ensures DISTANCE_CODES[0].value == 1
    ensures forall m | 0 <= m < DISTANCES :: DISTANCE_CODES[m].extra == if m < 2 then 0 else (m - 2) / 2
    ensures forall m | 0 <= m < DISTANCES - 1 ::
              DISTANCE_CODES[m + 1].value == DISTANCE_CODES[m].value + Pow2(DISTANCE_CODES[m].extra)
  {
    PowersUpTo5();
    PowersUpTo13();
  }

  ghost function SymbolWord(s: nat): (w: seq<bit>)
    ensures |w| == CodeLength(s)
  {
    CodeBits(RfcCode(s), CodeLength(s))
  }

  ghost function LengthBits(k: nat, x: nat): seq<bit>
    requires k < LENGTHS
  {
    SymbolWord(257 + k) + BitList(x, LENGTH_CODES[k].extra)
  }

  ghost function DistanceBits(m: nat, y: nat): seq<bit>
    requires m < DISTANCES
  {
    CodeBits(m, 5) + BitList(y, DISTANCE_CODES[m].extra)
  }

  /** An element of a block as it is coded: a byte, or a length and a distance, each by its symbol and the
      number in its extra bits. */
  datatype Item =
    | Byte(value: byte)
    | Copy(lengthSymbol: nat, lengthExtra: nat, distSymbol: nat, distExtra: nat)
  {
    ghost predicate Valid()
    {
      Byte? ||
      (lengthSymbol < LENGTHS && lengthExtra < Pow2(LENGTH_CODES[lengthSymbol].extra)
      && distSymbol < DISTANCES && distExtra < Pow2(DISTANCE_CODES[distSymbol].extra))
    }

    function Length(): nat
      requires Copy? ==> lengthSymbol < LENGTHS
    {
      if Byte? then 1 else LENGTH_CODES[lengthSymbol].value + lengthExtra
    }

    function Distance(): nat
      requires Copy? && distSymbol < DISTANCES
    {
      DISTANCE_CODES[distSymbol].value + distExtra
    }

    ghost function CodedBits(): seq<bit>
      requires Valid()
    {
      if Byte? then SymbolWord(value)
      else LengthBits(lengthSymbol, lengthExtra) + DistanceBits(distSymbol, distExtra)
    }
  }

  ghost predicate AllValid(items: seq<Item>)
  {
    forall k | 0 <= k < |items| :: items[k].Valid()
  }

  ghost function ItemsBits(items: seq<Item>): seq<bit>
    requires AllValid(items)
  {
    if items == [] then [] else items[0].CodedBits() + ItemsBits(items[1..])
  }

  const END_OF_BLOCK: nat := 256

  /** The items and the end of the block. */
  ghost function Body(items: seq<Item>): seq<bit>
    requires AllValid(items)
  {
    ItemsBits(items) + SymbolWord(END_OF_BLOCK)
  }

  /** One final block with fixed codes: BFINAL is 1 and BTYPE is 01. */
  ghost function Block(items: seq<Item>): seq<bit>
    requires AllValid(items)
  {
    [1] + [1, 0] + Body(items)
  }

  // ----- Meaning

  /** n more bytes, each equal to the one `dist` bytes before it, be that an old or a new one. */
  ghost function Repeat(out: seq<byte>, dist: nat, n: nat): (r: seq<byte>)
    requires 1 <= dist <= |out|
    ensures |r| == |out| + n && out <= r
    decreases n
  {
    if n == 0 then out
    else
      var shorter := Repeat(out, dist, n - 1);
      shorter + [shorter[|shorter| - dist]]
  }

  lemma DistancePositive(item: Item)
    requires item.Copy? && item.distSymbol < DISTANCES
    ensures item.Distance() >= 1
  {
  }

  ghost function ExpandItem(out: seq<byte>, item: Item): (r: seq<byte>)
    requires item.Valid() && (item.Copy? ==> item.Distance() <= |out|)
    ensures |r| == |out| + item.Length() && out <= r
  {
    if item.Byte? then out + [item.value]
    else
      DistancePositive(item);
      Repeat(out, item.Distance(), item.Length())
  }

  /** Distances do not reach back beyond the first byte. */
  ghost predicate Reaches(items: seq<Item>)
    requires AllValid(items)
    decreases |items|, 0
  {
    items == [] ||
    var front, last := items[..|items| - 1], items[|items| - 1];
    Reaches(front) && (last.Copy? ==> last.Distance() <= |Expand(front)|)
  }

  ghost function Expand(items: seq<Item>): seq<byte>
    requires AllValid(items) && Reaches(items)
    decreases |items|, 1
  {
    if items == [] then []
    else
      var front, last := items[..|items| - 1], items[|items| - 1];
      ExpandItem(Expand(front), last)
  }

  lemma {:induction false} ItemsBitsSnoc(items: seq<Item>, item: Item)
    requires AllValid(items) && item.Valid()
    ensures ItemsBits(items + [item]) == ItemsBits(items) + item.CodedBits()
  {
    hide Item.CodedBits, Item.Valid;
    if items == [] {
      assert items + [item] == [item];
      assert ItemsBits([item]) == item.CodedBits() + ItemsBits([]);
    } else {
      ItemsBitsSnoc(items[1..], item);
      assert (items + [item])[1..] == items[1..] + [item];
      ConcatAssociative(items[0].CodedBits(), ItemsBits(items[1..]), item.CodedBits());
    }
  }

  /** What is allowed and produced by a longer list begins with that of a shorter one. */
  lemma {:induction false} Prefixes(items: seq<Item>, k: nat)
    requires AllValid(items) && k <= |items| && Reaches(items)
    ensures Reaches(items[..k]) && Expand(items[..k]) <= Expand(items)
    decreases |items|
  {
    if k == |items| {
      assert items[..k] == items;
    } else {
      var front := items[..|items| - 1];
      Prefixes(front, k);
      assert front[..k] == items[..k];
    }
  }

  // ----- The encoder's choice of symbols

  ghost predicate Fits(codes: seq<BitCode>, k: nat, n: nat)
    requires k < |codes|
  {
    codes[k].value <= n < codes[k].value + Pow2(codes[k].extra)
  }

  lemma LengthSymbolExists(len: nat) returns (k: nat)
    requires 3 <= len <= 258
    ensures k < LENGTHS && Fits(LENGTH_CODES, k, len)
  {
    if len == 258 {
      k := 28;
      return;
    }
    k := 27;
    PowersUpTo5();
    while len < LENGTH_CODES[k].value
      invariant k <= 27 && len < LENGTH_CODES[k].value + Pow2(LENGTH_CODES[k].extra)
    {
      LengthTable();
      k := k - 1;
    }
  }

  lemma DistanceSymbolExists(dist: nat) returns (m: nat)
    requires 1 <= dist <= 32768
    ensures m < DISTANCES && Fits(DISTANCE_CODES, m, dist)
  {
    m := 29;
    PowersUpTo13();
    while dist < DISTANCE_CODES[m].value
      invariant m <= 29 && dist < DISTANCE_CODES[m].value + Pow2(DISTANCE_CODES[m].extra)
    {
      DistanceTable();
      m := m - 1;
    }
  }

  /** What an item says, whatever symbols were chosen to code it. */
  datatype Token = Literal(value: byte) | Match(length: nat, distance: nat)
  {
    predicate InRange()
    {
      Match? ==> 3 <= length <= 258 && 1 <= distance <= 32768
    }
  }

  function Meaning(item: Item): Token
    requires item.Copy? ==> item.lengthSymbol < LENGTHS && item.distSymbol < DISTANCES
  {
    if item.Byte? then Literal(item.value) else Match(item.Length(), item.Distance())
  }

  lemma {:induction false} LengthBound(k: nat)
    requires k < LENGTHS
    ensures 3 <= LENGTH_CODES[k].value && LENGTH_CODES[k].value + Pow2(LENGTH_CODES[k].extra) <= 259
    decreases LENGTHS - k
  {
    PowersUpTo5();
    if k < 27 {
      LengthBound(k + 1);
      LengthTable();
    }
  }

  lemma {:induction false} DistanceBound(m: nat)
    requires m < DISTANCES
    ensures 1 <= DISTANCE_CODES[m].value && DISTANCE_CODES[m].value + Pow2(DISTANCE_CODES[m].extra) <= 32769
    decreases DISTANCES - m
  {
    PowersUpTo13();
    if m < 29 {
      DistanceBound(m + 1);
      DistanceTable();
    }
  }

  /** Exactly the literals and the matches within the limits of the format can be said. */
  lemma SayableTokens(t: Token)
    ensures t.InRange() <==> exists item: Item :: item.Valid() && Meaning(item) == t
  {
    if t.InRange() {
      var item := Byte(0);
      if t.Literal? {
        item := Byte(t.value);
      } else {
        var k := LengthSymbolExists(t.length);
        var m := DistanceSymbolExists(t.distance);
        item := Copy(k, t.length - LENGTH_CODES[k].value, m, t.distance - DISTANCE_CODES[m].value);
      }
      assert item.Valid() && Meaning(item) == t;
    }
    forall item: Item | item.Valid()
      ensures Meaning(item).InRange()
    {
      if item.Copy? {
        LengthBound(item.lengthSymbol);
        DistanceBound(item.distSymbol);
      }
    }
  }

  /** A copy continues the output with the period `dist`, even where it overlaps itself. */
  lemma {:induction false} RepeatPeriod(out: seq<byte>, dist: nat, n: nat)
    requires 1 <= dist <= |out|
    ensures forall i | |out| <= i < |out| + n :: Repeat(out, dist, n)[i] == Repeat(out, dist, n)[i - dist]
  {
    if n > 0 {
      RepeatPeriod(out, dist, n - 1);
      var shorter := Repeat(out, dist, n - 1);
      var r := Repeat(out, dist, n);
      assert r == shorter + [shorter[|shorter| - dist]];
      forall i | |out| <= i < |out| + n
        ensures r[i] == r[i - dist]
      {
        assert r[i - dist] == shorter[i - dist];
        if i < |shorter| {
          assert r[i] == shorter[i];
        } else {
          assert i == |shorter| && r[i] == shorter[i - dist];
        }
      }
    }
  }

  lemma {:induction false} RepeatOne(c: byte, n: nat)
    ensures Repeat([c], 1, n) == seq(n + 1, _ => c)
  {
    if n > 0 {
      RepeatOne(c, n - 1);
    }
  }

  lemma LetterWord()
    ensures SymbolWord(97) == [1, 0, 0, 1, 0, 0, 0, 1]
  {
  }

  lemma LengthWord()
    ensures SymbolWord(265) == [0, 0, 0, 1, 0, 0, 1]
  {
  }

  lemma EndWord()
    ensures SymbolWord(256) == [0, 0, 0, 0, 0, 0, 0] && CodeBits(0, 5) == [0, 0, 0, 0, 0]
  {
  }

  lemma FourBytes(b: seq<byte>)
    requires |b| == 4
    ensures Bits(b) == ByteBits(b[0]) + ByteBits(b[1]) + ByteBits(b[2]) + ByteBits(b[3])
  {
    hide ByteBits;
    var c, d, e := b[1..], b[2..], b[3..];
    assert c[1..] == d && d[1..] == e && e[1..] == [];
    assert Bits(e) == ByteBits(b[3]);
    assert Bits(d) == ByteBits(b[2]) + ByteBits(b[3]);
    assert Bits(c) == ByteBits(b[1]) + (ByteBits(b[2]) + ByteBits(b[3]));
  }

  lemma FirstByte()
    ensures ByteBits(0x4B) == [1, 1, 0, 1, 0, 0, 1, 0]
  {
  }

  lemma SecondByte()
    ensures ByteBits(0x44) == [0, 0, 1, 0, 0, 0, 1, 0]
  {
  }

  lemma LastBytes()
    ensures ByteBits(0x02) == [0, 1, 0, 0, 0, 0, 0, 0] && ByteBits(0x00) == [0, 0, 0, 0, 0, 0, 0, 0]
  {
  }

  lemma TwelveLetters()
    ensures var items := [Byte(97), Copy(8, 0, 0, 0)];
            AllValid(items) && Reaches(items) && Expand(items) == seq(12, _ => 97)
  {
    hide Repeat;
    PowersUpTo5();
    var items := [Byte(97), Copy(8, 0, 0, 0)];
    assert items[..1] == [Byte(97)] && items[..1][..0] == [];
    assert Reaches(items[..1]) && Expand(items[..1]) == [97];
    RepeatOne(97, 11);
  }

  lemma TwelveItems()
    requires AllValid([Byte(97), Copy(8, 0, 0, 0)])
    ensures ItemsBits([Byte(97), Copy(8, 0, 0, 0)]) == SymbolWord(97) + (SymbolWord(265) + [0] + CodeBits(0, 5))
  {
    hide SymbolWord, CodeBits;
    var a, copy := Byte(97), Copy(8, 0, 0, 0);
    assert [a, copy][0] == a && [a, copy][1..] == [copy] && [copy][1..] == [];
    assert copy.Valid() && a.Valid();
    assert BitList(0, 1) == [0] && BitList(0, 0) == [];
    assert copy.CodedBits() == SymbolWord(265) + [0] + CodeBits(0, 5);
    assert ItemsBits([copy]) == copy.CodedBits();
  }

  /** Four bytes of a stream: the block that says twelve times the letter a. */
  lemma TwelveTimes()
    ensures var items := [Byte(97), Copy(8, 0, 0, 0)];
            && AllValid(items) && Reaches(items) && Expand(items) == seq(12, _ => 97)
            && Bits([0x4B, 0x44, 0x02, 0x00]) == Block(items) + [0]
  {
    hide SymbolWord, CodeBits, ByteBits, Bits, ItemsBits, AllValid, Reaches, Expand;
    TwelveLetters();
    TwelveItems();
    LetterWord();
    LengthWord();
    EndWord();
    FirstByte();
    SecondByte();
    LastBytes();
    FourBytes([0x4B, 0x44, 0x02, 0x00]);
  }
}
