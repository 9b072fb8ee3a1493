/** The inflate routine of kernel/lib/inflate.c. */
module Inflates {
  import opened Machine
  import opened Sequences
  import opened BitStrings
  import opened BitArrays
  import opened Canonical
  import opened Huffmans
  import opened FixedCodes
  import opened Deflate

  lemma {:induction false} PowersGrow(m: nat, n: nat)
    requires m <= n
    ensures Pow2(m) <= Pow2(n)
  {
    if m < n {
      PowersGrow(m, n - 1);
    }
  }

  lemma Powers(bits: nat)
    requires bits <= 13
    ensures Pow2(bits) <= 8192
  {
    PowersGrow(bits, 13);
    assert Pow2(13) == 8192;
  }

  /** The extra bits of a symbol: as Fetch, with the stream cut in two. */
  method FetchExtra(b: BitArray, bits: nat) returns (r: int)
    requires b.Valid() && bits <= 13
    modifies b
    ensures b.Valid() && b.SuppliedFrom(old(b.data), old(b.refills))
    ensures r < 0 ==> |old(b.Stream())| < bits
    ensures r >= 0 ==> r < Pow2(bits) && old(b.Stream()) == BitList(r, bits) + b.Stream()
  {
    hide BitArray.Stream, FromBits, BitList, Pow2;
    ghost var all := b.Stream();
    r := b.Fetch(bits);
    if |all| >= bits {
      Powers(bits);
      BitListOfFromBits(all[..bits]);
      assert all == all[..bits] + all[bits..];
    }
  }

  /** Equal bit lists that begin with numbers of the same width. */
  lemma SameExtra(x: nat, y: nat, n: nat, s: seq<bit>, t: seq<bit>)
    requires x < Pow2(n) && y < Pow2(n)
    requires BitList(x, n) + s == BitList(y, n) + t
    ensures x == y && s == t
  {
    hide BitList, Pow2;
    assert BitList(x, n) == (BitList(x, n) + s)[..n];
    assert BitList(y, n) == (BitList(y, n) + t)[..n];
    FromBitsOfBitList(x, n);
    FromBitsOfBitList(y, n);
    CancelPrefix(BitList(x, n), s, t);
  }

  datatype Outcome = More | Done | Failed(code: int)

  lemma OneBit(v: nat)
    requires v < 2
    ensures BitList(v, 1) == [v]
  {
    assert BitList(v / 2, 0) == [];
  }

  lemma TwoBits(v: nat)
    requires v < 4
    ensures BitList(v, 2) == [v % 2, v / 2]
  {
    OneBit(v / 2);
    assert BitList(v, 2) == [v % 2] + BitList(v / 2, 1);
  }

  /** A sender's stream after the items in `got`. */
  ghost predicate Awaited(sent: seq<Item>, size: nat, got: seq<Item>, bits: seq<bit>, rest: seq<bit>)
  {
    && AllValid(sent) && Reaches(sent) && |Expand(sent)| <= size
    && got <= sent && bits == Body(sent[|got|..]) + rest
  }

  /** The stream holds the block of a list of items that can be expanded into `size` bytes, and then `rest`. */
  ghost predicate Sends(sent: seq<Item>, size: nat, bits: seq<bit>, rest: seq<bit>)
  {
    AllValid(sent) && Reaches(sent) && |Expand(sent)| <= size && bits == Block(sent) + rest
  }

  lemma BlockStart(sent: seq<Item>, size: nat, all: seq<bit>, rest: seq<bit>, after: seq<bit>)
    ensures Sends(sent, size, all, rest) ==> [1, 1, 0] <= all
    ensures Sends(sent, size, all, rest) && all == [1, 1, 0] + after ==> Awaited(sent, size, [], after, rest)
  {
    hide Body;
    if Sends(sent, size, all, rest) {
      assert [1] + [1, 0] == [1, 1, 0];
      assert all == [1, 1, 0] + (Body(sent) + rest);
      assert sent[0..] == sent;
      if all == [1, 1, 0] + after {
        CancelPrefix([1, 1, 0], after, Body(sent) + rest);
      }
    }
  }

  lemma NoItems(s: seq<bit>)
    ensures AllValid([]) && Reaches([]) && Expand([]) == [] && ItemsBits([]) + s == s
  {
  }

  lemma WholeBlock(got: seq<Item>, s: seq<bit>)
    requires AllValid(got)
    ensures [1, 1, 0] + (ItemsBits(got) + (SymbolWord(END_OF_BLOCK) + s)) == Block(got) + s
  {
    hide ItemsBits, SymbolWord;
    assert [1] + [1, 0] == [1, 1, 0];
  }

  /** The item is a copy with length symbol k. */
  ghost predicate IsCopy(item: Item, k: nat)
  {
    item.Copy? && item.Valid() && item.lengthSymbol == k
  }

  /** The bits of a copy after its length symbol. */
  ghost function AfterSymbol(item: Item): seq<bit>
    requires item.Copy? && item.Valid()
  {
    BitList(item.lengthExtra, LENGTH_CODES[item.lengthSymbol].extra) + DistanceBits(item.distSymbol, item.distExtra)
  }

  lemma FourParts<T>(a: seq<T>, b: seq<T>, c: seq<T>, d: seq<T>)
    ensures a + (b + (c + d)) == a + b + c + d
  {
  }

  /** What a sender's stream holds after n items: the symbol that comes next, and what follows it. */
  lemma NextSent(sent: seq<Item>, n: nat, rest: seq<bit>) returns (s: nat, tail: seq<bit>)
    requires AllValid(sent) && n <= |sent|
    ensures s < CODE_SYMBOLS && Body(sent[n..]) + rest == SymbolWord(s) + tail
    ensures SymbolWord(s) <= Body(sent[n..]) + rest
    ensures n == |sent| <==> s == END_OF_BLOCK
    ensures n == |sent| ==> tail == rest
    ensures n < |sent| && sent[n].Byte? ==> s == sent[n].value && tail == Body(sent[n + 1..]) + rest
    ensures n < |sent| && sent[n].Copy? ==>
              257 <= s < 286 && IsCopy(sent[n], s - 257) && tail == AfterSymbol(sent[n]) + (Body(sent[n + 1..]) + rest)
  {
    hide SymbolWord, BitList, DistanceBits;
    if n == |sent| {
      s, tail := END_OF_BLOCK, rest;
      assert ItemsBits(sent[n..]) == [];
    } else {
      var item, after := sent[n], Body(sent[n + 1..]) + rest;
      assert sent[n..][1..] == sent[n + 1..];
      ConcatAssociative(item.CodedBits(), ItemsBits(sent[n + 1..]), SymbolWord(END_OF_BLOCK));
      ConcatAssociative(item.CodedBits(), Body(sent[n + 1..]), rest);
      if item.Byte? {
        s, tail := item.value, after;
      } else {
        s, tail := 257 + item.lengthSymbol, AfterSymbol(item) + after;
        var e := BitList(item.lengthExtra, LENGTH_CODES[item.lengthSymbol].extra);
        FourParts(SymbolWord(s), e, DistanceBits(item.distSymbol, item.distExtra), after);
        ConcatAssociative(e, DistanceBits(item.distSymbol, item.distExtra), after);
      }
    }
  }

  /** Each of a sender's items fits behind the ones before it. */
  lemma NextFits(sent: seq<Item>, n: nat)
    requires AllValid(sent) && Reaches(sent) && n < |sent|
    ensures AllValid(sent[..n]) && Reaches(sent[..n])
    ensures sent[n].Copy? ==> sent[n].Distance() <= |Expand(sent[..n])|
    ensures |Expand(sent[..n])| + sent[n].Length() <= |Expand(sent)|
  {
    Prefixes(sent, n + 1);
    var more := sent[..n + 1];
    assert more[..n] == sent[..n] && more[n] == sent[n];
  }

  /** What a sender's stream holds next. */
  lemma Expect(sent: seq<Item>, size: nat, got: seq<Item>, bits: seq<bit>, rest: seq<bit>)
    returns (s: nat, tail: seq<bit>, item: Item, after: seq<bit>)
    requires AllValid(got) && Reaches(got) && Awaited(sent, size, got, bits, rest)
    ensures s < CODE_SYMBOLS && bits == SymbolWord(s) + tail && SymbolWord(s) <= bits
    ensures s == END_OF_BLOCK ==> got == sent && tail == rest
    ensures s != END_OF_BLOCK ==>
              && item.Valid() && |Expand(got)| + item.Length() <= size
              && Awaited(sent, size, got + [item], after, rest)
              && if s < 256 then item == Byte(s) && tail == after
                 else 257 <= s < 286 && IsCopy(item, s - 257) && tail == AfterSymbol(item) + after
                      && item.Distance() <= |Expand(got)|
  {
    hide SymbolWord, Body, AfterSymbol;
    var n := |got|;
    assert got == sent[..n];
    s, tail := NextSent(sent, n, rest);
    item, after := Byte(0), rest;
    if n < |sent| {
      NextFits(sent, n);
      item, after := sent[n], Body(sent[n + 1..]) + rest;
      assert sent[..n + 1] == got + [item];
    }
  }

  /** One more item: its bits, and its bytes behind those of the items before. */
  lemma Extend(got: seq<Item>, item: Item, before: seq<bit>, after: seq<bit>)
    requires AllValid(got) && Reaches(got) && item.Valid()
    requires item.Copy? ==> item.Distance() <= |Expand(got)|
    requires before == item.CodedBits() + after
    ensures var more := got + [item];
            && AllValid(more) && Reaches(more)
            && ItemsBits(got) + before == ItemsBits(more) + after
            && Expand(more) == ExpandItem(Expand(got), item)
  {
    hide Item.CodedBits;
    var more := got + [item];
    assert more[..|got|] == got && more[|got|] == item;
    ItemsBitsSnoc(got, item);
    ConcatAssociative(ItemsBits(got), item.CodedBits(), after);
  }

  lemma ExtendByByte(got: seq<Item>, v: byte, before: seq<bit>, after: seq<bit>)
    requires AllValid(got) && Reaches(got) && before == SymbolWord(v) + after
    ensures Byte(v).Valid() && AllValid(got + [Byte(v)]) && Reaches(got + [Byte(v)])
    ensures ItemsBits(got) + before == ItemsBits(got + [Byte(v)]) + after && |after| < |before|
    ensures Expand(got + [Byte(v)]) == Expand(got) + [v]
  {
    hide SymbolWord, ItemsBits;
    Extend(got, Byte(v), before, after);
  }

  lemma ExtendByCopy(got: seq<Item>, sym: nat, item: Item, middle: seq<bit>, after: seq<bit>)
    requires AllValid(got) && Reaches(got) && sym >= 257 && IsCopy(item, sym - 257)
    requires item.Distance() <= |Expand(got)|
    requires SymbolWord(sym) + middle == item.CodedBits() + after
    ensures AllValid(got + [item]) && Reaches(got + [item]) && item.Distance() >= 1
    ensures ItemsBits(got) + (SymbolWord(sym) + middle) == ItemsBits(got + [item]) + after
    ensures |after| < |SymbolWord(sym) + middle|
    ensures Expand(got + [item]) == Repeat(Expand(got), item.Distance(), item.Length())
  {
    hide SymbolWord, ItemsBits;
    assert |item.CodedBits()| >= |SymbolWord(sym)|;
    DistancePositive(item);
    Extend(got, item, SymbolWord(sym) + middle, after);
  }

  lemma AfterLength(item: Item)
    requires item.Copy? && item.Valid()
    ensures AfterSymbol(item)
            == BitList(item.lengthExtra, LENGTH_CODES[item.lengthSymbol].extra) + DistanceBits(item.distSymbol, item.distExtra)
  {
  }

  lemma CopyBits(k: nat, item: Item, rest: seq<bit>)
    requires IsCopy(item, k)
    ensures item.Copy? && item.Valid()
    ensures SymbolWord(257 + k) + (AfterSymbol(item) + rest) == item.CodedBits() + rest
  {
    hide SymbolWord, BitList, DistanceBits;
    var w, e := SymbolWord(257 + item.lengthSymbol), BitList(item.lengthExtra, LENGTH_CODES[item.lengthSymbol].extra);
    var d := DistanceBits(item.distSymbol, item.distExtra);
    assert item.CodedBits() == w + e + d;
    FourParts(w, e, d, rest);
    ConcatAssociative(e, d, rest);
  }

  /** No distance starts the stream. */
  ghost predicate NoDistance(bits: seq<bit>)
  {
    forall m, y | 0 <= m < DISTANCES && 0 <= y < Pow2(DISTANCE_CODES[m].extra) :: !(DistanceBits(m, y) <= bits)
  }

  lemma SomeDistance(m: nat, y: nat, bits: seq<bit>)
    requires m < DISTANCES && y < Pow2(DISTANCE_CODES[m].extra) && DistanceBits(m, y) <= bits
    ensures !NoDistance(bits)
  {
  }

  /** The extra bits of a length decide those of every copy that the stream can start with. */
  lemma CopiesBegin(k: nat, bits: seq<bit>, x: int, rest: seq<bit>)
    requires k < LENGTHS
    requires var n := LENGTH_CODES[k].extra;
             if x < 0 then |bits| < n else x < Pow2(n) && bits == BitList(x, n) + rest
    ensures forall item | IsCopy(item, k) && AfterSymbol(item) <= bits ::
              x >= 0 && item.lengthExtra == x && !NoDistance(rest)
  {
    hide BitList, Pow2, DistanceBits, NoDistance;
    forall item | IsCopy(item, k) && AfterSymbol(item) <= bits
      ensures x >= 0 && item.lengthExtra == x && !NoDistance(rest)
    {
      var n := LENGTH_CODES[k].extra;
      var d := DistanceBits(item.distSymbol, item.distExtra);
      var tail := bits[|AfterSymbol(item)|..];
      ConcatAssociative(BitList(item.lengthExtra, n), d, tail);
      assert bits == BitList(item.lengthExtra, n) + (d + tail);
      if x >= 0 {
        SameExtra(item.lengthExtra, x, n, d + tail, rest);
        assert d <= rest;
        SomeDistance(item.distSymbol, item.distExtra, rest);
      }
    }
  }

  lemma SameDistance(s: nat, t: nat, a: seq<bit>, b: seq<bit>)
    requires s < DIST_SYMBOLS && t < DIST_SYMBOLS
    requires CodeBits(s, 5) + a == CodeBits(t, 5) + b
    ensures s == t && a == b
  {
    hide CodeBits;
    assert CodeBits(s, 5) == (CodeBits(s, 5) + a)[..5];
    assert CodeBits(t, 5) == (CodeBits(s, 5) + a)[..5];
    assert Pow2(5) == 32;
    CodeBitsInjective(s, t, 5);
    CancelPrefix(CodeBits(s, 5), a, b);
  }

  lemma NoSymbolNoDistance(bits: seq<bit>, s: int, rest: seq<bit>)
    requires s < DIST_SYMBOLS
    requires if s < 0 then forall t | 0 <= t < DIST_SYMBOLS :: !(CodeBits(t, 5) <= bits)
             else s >= DISTANCES && bits == CodeBits(s, 5) + rest
    ensures NoDistance(bits)
  {
    hide CodeBits, BitList, Pow2;
    forall m, y | 0 <= m < DISTANCES && 0 <= y < Pow2(DISTANCE_CODES[m].extra)
      ensures !(DistanceBits(m, y) <= bits)
    {
      if DistanceBits(m, y) <= bits {
        assert CodeBits(m, 5) <= DistanceBits(m, y);
        assert CodeBits(m, 5) <= bits;
        assert bits == CodeBits(m, 5) + bits[5..];
        SameDistance(m, s, bits[5..], rest);
      }
    }
  }

  lemma NoExtraNoDistance(bits: seq<bit>, s: nat, rest: seq<bit>)
    requires s < DISTANCES && bits == CodeBits(s, 5) + rest && |rest| < DISTANCE_CODES[s].extra
    ensures NoDistance(bits)
  {
    hide CodeBits, BitList, Pow2;
    forall m, y | 0 <= m < DISTANCES && 0 <= y < Pow2(DISTANCE_CODES[m].extra)
      ensures !(DistanceBits(m, y) <= bits)
    {
      if DistanceBits(m, y) <= bits {
        var e := BitList(y, DISTANCE_CODES[m].extra);
        var tail := bits[|DistanceBits(m, y)|..];
        ConcatAssociative(CodeBits(m, 5), e, tail);
        SameDistance(m, s, e + tail, rest);
      }
    }
  }

  /** A sender's copy that fits is the one that is read. */
  lemma SameCopy(k: nat, sent: Item, tail: seq<bit>, bits: seq<bit>, item: Item, rest: seq<bit>)
    ensures IsCopy(sent, k) && bits == AfterSymbol(sent) + tail ==> AfterSymbol(sent) <= bits
    ensures IsCopy(sent, k) && bits == AfterSymbol(sent) + tail && IsCopy(item, k) && bits == AfterSymbol(item) + rest ==>
              item == sent && rest == tail
  {
    hide BitList, CodeBits, Pow2;
    if IsCopy(sent, k) && bits == AfterSymbol(sent) + tail && IsCopy(item, k) && bits == AfterSymbol(item) + rest {
      var n := LENGTH_CODES[k].extra;
      var d, e := DistanceBits(sent.distSymbol, sent.distExtra), DistanceBits(item.distSymbol, item.distExtra);
      ConcatAssociative(BitList(sent.lengthExtra, n), d, tail);
      ConcatAssociative(BitList(item.lengthExtra, n), e, rest);
      SameExtra(sent.lengthExtra, item.lengthExtra, n, d + tail, e + rest);
      var x, y := BitList(sent.distExtra, DISTANCE_CODES[sent.distSymbol].extra),
                  BitList(item.distExtra, DISTANCE_CODES[item.distSymbol].extra);
      ConcatAssociative(CodeBits(sent.distSymbol, 5), x, tail);
      ConcatAssociative(CodeBits(item.distSymbol, 5), y, rest);
      SameDistance(sent.distSymbol, item.distSymbol, x + tail, y + rest);
      SameExtra(sent.distExtra, item.distExtra, DISTANCE_CODES[sent.distSymbol].extra, tail, rest);
    }
  }

  /** Bits that begin with one symbol's word begin with no other. */
  lemma SameSymbol(s: nat, t: nat, a: seq<bit>, b: seq<bit>)
    requires s < CODE_SYMBOLS && t < CODE_SYMBOLS
    requires SymbolWord(s) + a == SymbolWord(t) + b
    ensures s == t && a == b
  {
    hide Feasible, Word, CodeBits, OfLength, RfcCode, CodeLength;
    CodeWords(s);
    CodeWords(t);
    CodeIsFeasible();
    assert SymbolWord(s) <= SymbolWord(s) + a;
    assert SymbolWord(t) <= SymbolWord(s) + a;
    SameWord(CodeLengths(CODE_SYMBOLS), s, t, SymbolWord(s) + a);
    CancelPrefix(SymbolWord(s), a, b);
  }

  /** The two static decoders, filled in by the first call. */
  class Inflater {
    var initialized: bool
    var code: Huffman
    var dist: Huffman

    ghost predicate Valid()
      reads this, code, dist, code.lengths, code.symbols, dist.lengths, dist.symbols
    {
      && code.lengths.Length == 16 && dist.lengths.Length == 16 && code.lengths != dist.lengths && code != dist
      && (initialized ==>
           && code.Valid() && code.lens == CodeLengths(CODE_SYMBOLS)
           && dist.Valid() && dist.lens == DistLengths(DIST_SYMBOLS))
    }

    constructor ()
      ensures Valid() && fresh(code) && fresh(dist) && fresh(code.lengths) && fresh(dist.lengths)
    {
      initialized := false;
      var l1 := new nat[16];
      var l2 := new nat[16];
      code := new Huffman(l1);
      dist := new Huffman(l2);
    }

    method FillCodeLengths() returns (symbols: array<nat>)
      ensures fresh(symbols) && symbols.Length == CODE_SYMBOLS
      ensures symbols[..] == CodeLengths(CODE_SYMBOLS)
    {
      symbols := new nat[CODE_SYMBOLS];
      for i := 0 to CODE_SYMBOLS
        invariant forall s | 0 <= s < i :: symbols[s] == CodeLength(s)
      {
        symbols[i] := CodeLength(i);
      }
    }

    method FillDistLengths() returns (symbols: array<nat>)
      ensures fresh(symbols) && symbols.Length == DIST_SYMBOLS
      ensures symbols[..] == DistLengths(DIST_SYMBOLS)
    {
      symbols := new nat[DIST_SYMBOLS];
      for i := 0 to DIST_SYMBOLS
        invariant forall s | 0 <= s < i :: symbols[s] == 5
      {
        symbols[i] := 5;
      }
    }

    /** inflate_init. */
    method Init()
      requires Valid() && !initialized
      modifies this, code, dist, code.lengths, dist.lengths
      ensures Valid() && initialized
      ensures code == old(code) && dist == old(dist)
    {
      hide Feasible, InRange, Count, KraftSum, OfLength, SortedUpTo, Offset, CodeLengths, DistLengths, Pow2;
      var codeSymbols := FillCodeLengths();
      var distSymbols := FillDistLengths();
      CodeIsFeasible();
      DistIsFeasible();
      var r1 := code.Init(codeSymbols);
      var r2 := dist.Init(distSymbols);
      initialized := true;
    }

    /** A symbol of the first code, in terms of the tabulated words. */
    method NextSymbol(b: BitArray) returns (s: int)
      requires Valid() && initialized && b.Valid()
      modifies b
      ensures b.Valid() && b.SuppliedFrom(old(b.data), old(b.refills))
      ensures s < CODE_SYMBOLS
      ensures s >= 0 ==> old(b.Stream()) == SymbolWord(s) + b.Stream()
      ensures s < 0 ==> forall t | 0 <= t < CODE_SYMBOLS :: !(SymbolWord(t) <= old(b.Stream()))
    {
      hide BitArray.Stream, Feasible, Word, CodeBits, OfLength, RfcCode, CodeLength;
      ghost var all := b.Stream();
      s := code.Fetch(b);
      if s >= 0 {
        CodeWords(s);
      } else {
        forall t | 0 <= t < CODE_SYMBOLS
          ensures !(SymbolWord(t) <= all)
        {
          CodeWords(t);
        }
      }
    }

    /** A symbol of the distance code. */
    method NextDistance(b: BitArray) returns (s: int)
      requires Valid() && initialized && b.Valid()
      modifies b
      ensures b.Valid() && b.SuppliedFrom(old(b.data), old(b.refills))
      ensures s < DIST_SYMBOLS
      ensures s >= 0 ==> old(b.Stream()) == CodeBits(s, 5) + b.Stream()
      ensures s < 0 ==> forall t | 0 <= t < DIST_SYMBOLS :: !(CodeBits(t, 5) <= old(b.Stream()))
    {
      hide BitArray.Stream, Feasible, Word, CodeBits, OfLength;
      ghost var all := b.Stream();
      s := dist.Fetch(b);
      if s >= 0 {
        DistWords(s);
      } else {
        forall t | 0 <= t < DIST_SYMBOLS
          ensures !(CodeBits(t, 5) <= all)
        {
          DistWords(t);
        }
      }
    }

    /** The distance of a copy. */
    method ReadDistance(b: BitArray, off: nat)
      returns (r: int, distance: nat, ghost m: nat, ghost y: nat)
      requires Valid() && initialized && b.Valid()
      modifies b
      ensures b.Valid() && b.SuppliedFrom(old(b.data), old(b.refills))
      ensures r == 0 || r == 4 || r == 5
      ensures r != 5 ==>
                && m < DISTANCES && y < Pow2(DISTANCE_CODES[m].extra)
                && distance == DISTANCE_CODES[m].value + y && (r == 0 <==> distance <= off)
                && old(b.Stream()) == DistanceBits(m, y) + b.Stream()
      ensures r == 5 ==> NoDistance(old(b.Stream()))
    {
      hide BitArray.Stream, BitList, CodeBits, Pow2, Inflater.Valid, Huffman.Valid, BitArray.Valid, NoDistance;
      TablesInRange();
      m, y, distance := 0, 0, 0;
      ghost var all := b.Stream();
      var symbol := NextDistance(b);
      ghost var middle := b.Stream();
      if symbol < 0 || symbol >= 30 {
        NoSymbolNoDistance(all, symbol, middle);
        return 5, distance, m, y;
      }
      m := symbol;
      var distanceBits := DISTANCE_CODES[symbol].extra;
      var v := FetchExtra(b, distanceBits);
      if v < 0 {
        NoExtraNoDistance(all, m, middle);
        return 5, distance, m, y;
      }
      y := v;
      ConcatAssociative(CodeBits(m, 5), BitList(y, distanceBits), b.Stream());
      distance := DISTANCE_CODES[symbol].value + v;
      if distance > off {
        return 4, distance, m, y;
      }
      return 0, distance, m, y;
    }

    /** The rest of a copy whose length symbol has just been read.

        The result is 5 exactly if the stream starts with no such copy that fits into `size`; else it is the copy
        that the stream starts with, and 4 tells that its distance leads beyond the first byte.
     */
    method ReadCopy(b: BitArray, k: nat, off: nat, size: nat)
      returns (r: int, len: nat, distance: nat, ghost item: Item)
      requires Valid() && initialized && b.Valid() && k < LENGTHS
      modifies b
      ensures b.Valid() && b.SuppliedFrom(old(b.data), old(b.refills))
      ensures r == 0 || r == 4 || r == 5
      ensures r != 5 ==>
                && IsCopy(item, k) && len == item.Length() && distance == item.Distance()
                && off + len <= size && (r == 0 <==> distance <= off)
                && old(b.Stream()) == AfterSymbol(item) + b.Stream()
      ensures r == 5 ==>
                forall other | IsCopy(other, k) && off + other.Length() <= size :: !(AfterSymbol(other) <= old(b.Stream()))
    {
      hide BitArray.Stream, BitList, CodeBits, Pow2, SymbolWord, DistanceBits, AfterSymbol;
      hide Inflater.Valid, Huffman.Valid, BitArray.Valid;
      TablesInRange();
      item := Byte(0);
      distance := 0;
      ghost var all := b.Stream();
      var lengthBits := LENGTH_CODES[k].extra;
      len := LENGTH_CODES[k].value;
      var x := FetchExtra(b, lengthBits);
      ghost var middle := b.Stream();
      CopiesBegin(k, all, x, middle);
      if x < 0 {
        return 5, len, distance, item;
      }
      len := len + x;
      if off + len > size {
        return 5, len, distance, item;
      }
      ghost var m, y;
      r, distance, m, y := ReadDistance(b, off);
      if r == 5 {
        return r, len, distance, item;
      }
      item := Copy(k, x, m, y);
      AfterLength(item);
      ConcatAssociative(BitList(x, lengthBits), DistanceBits(m, y), b.Stream());
    }

    /** The copy loop: bytes may be copied that this very loop has written. */
    method RepeatBytes(out: array<byte>, off: nat, distance: nat, len: nat)
      requires 1 <= distance <= off && off + len <= out.Length
      modifies out
      ensures out[..off + len] == Repeat(old(out[..off]), distance, len)
      ensures out[off + len..] == old(out[off + len..])
    {
      ghost var start := out[..off];
      for i := 0 to len
        invariant out[..off + i] == Repeat(start, distance, i)
        invariant out[off + len..] == old(out[off + len..])
      {
        assert out[off + i - distance] == out[..off + i][off + i - distance];
        out[off + i] := out[off + i - distance];
        assert out[..off + i + 1] == out[..off + i] + [out[off + i]];
      }
    }

    /** A round whose symbol is that of a copy. */
    method CopyRound(b: BitArray, out: array<byte>, off: nat, size: nat, k: nat,
                     ghost got: seq<Item>, ghost sender: Item, ghost after: seq<bit>)
      returns (e: int, end: nat, ghost more: seq<Item>)
      requires Valid() && initialized && b.Valid() && off <= size <= out.Length && k < LENGTHS
      requires out != b.data && out !in b.refills
      requires AllValid(got) && Reaches(got) && out[..off] == Expand(got)
      modifies b, out
      ensures b.Valid() && b.SuppliedFrom(old(b.data), old(b.refills))
      ensures out[size..] == old(out[size..])
      ensures e == 0 || e == 4 || e == 5
      ensures AllValid(more) && Reaches(more) && end <= size && out[..end] == Expand(more)
      ensures e == 0 ==>
                && ItemsBits(got) + (SymbolWord(257 + k) + old(b.Stream())) == ItemsBits(more) + b.Stream()
                && |b.Stream()| < |SymbolWord(257 + k) + old(b.Stream())|
      ensures IsCopy(sender, k) && off + sender.Length() <= size && sender.Distance() <= off
              && old(b.Stream()) == AfterSymbol(sender) + after ==>
                e == 0 && more == got + [sender] && b.Stream() == after
    {
      hide BitArray.Stream, SymbolWord, BitList, Item.CodedBits, ItemsBits, Expand, Reaches, Repeat, CodeBits, AllValid,
           AfterSymbol, ExpandItem, Item.Valid, Item.Length, Item.Distance, IsCopy, Inflater.Valid, Huffman.Valid,
           BitArray.Valid;
      end, more := off, got;
      ghost var middle := b.Stream();
      var len, distance;
      ghost var item;
      e, len, distance, item := ReadCopy(b, k, off, size);
      SameCopy(k, sender, after, middle, item, b.Stream());
      if e == 0 {
        CopyBits(k, item, b.Stream());
        ExtendByCopy(got, 257 + k, item, middle, b.Stream());
        RepeatBytes(out, off, distance, len);
        more := got + [item];
        end := off + len;
      }
    }

    /** One round of the decoding loop. */
    method Round(b: BitArray, out: array<byte>, off: nat, size: nat,
                 ghost got: seq<Item>, ghost sent: seq<Item>, ghost rest: seq<bit>)
      returns (round: Outcome, end: nat, ghost more: seq<Item>)
      requires Valid() && initialized && b.Valid() && off <= size <= out.Length
      requires out != b.data && out !in b.refills
      requires AllValid(got) && Reaches(got) && out[..off] == Expand(got)
      modifies b, out
      ensures b.Valid() && b.SuppliedFrom(old(b.data), old(b.refills))
      ensures out[size..] == old(out[size..])
      ensures AllValid(more) && Reaches(more) && end <= size && out[..end] == Expand(more)
      ensures round.More? ==> ItemsBits(got) + old(b.Stream()) == ItemsBits(more) + b.Stream()
                              && |b.Stream()| < |old(b.Stream())|
      ensures round.Done? ==> more == got && old(b.Stream()) == SymbolWord(END_OF_BLOCK) + b.Stream()
      ensures round.Failed? ==> 3 <= round.code <= 5
      ensures round == Failed(3) <==> forall t | 0 <= t < CODE_SYMBOLS :: !(SymbolWord(t) <= old(b.Stream()))
      ensures Awaited(sent, size, got, old(b.Stream()), rest) ==>
                && !round.Failed?
                && (round.More? ==> Awaited(sent, size, more, b.Stream(), rest))
                && (round.Done? ==> got == sent && b.Stream() == rest)
    {
      hide BitArray.Stream, SymbolWord, BitList, Body, Item.CodedBits, ItemsBits, Expand, Reaches, Repeat, CodeBits,
           Awaited, AfterSymbol, ExpandItem, Item.Valid, Inflater.Valid, Huffman.Valid, BitArray.Valid;
      end, more := off, got;
      ghost var before := b.Stream();
      ghost var expected := Awaited(sent, size, got, before, rest);
      ghost var s, tail, sender, after := 0, rest, Byte(0), rest;
      if expected {
        s, tail, sender, after := Expect(sent, size, got, before, rest);
      }
      var sym := NextSymbol(b);
      if expected && sym >= 0 {
        SameSymbol(s, sym, tail, b.Stream());
      }
      if sym == 256 {
        return Done, end, more;
      }
      if sym < 0 {
        return Failed(3), end, more;
      }
      if sym < 256 {
        if off >= size {
          return Failed(4), end, more;
        }
        ExtendByByte(got, sym, before, b.Stream());
        more := got + [Byte(sym)];
        out[off] := sym;
        end := off + 1;
        return More, end, more;
      }
      if sym >= 286 {
        return Failed(5), end, more;
      }
      var e;
      e, end, more := CopyRound(b, out, off, size, sym - 257, got, sender, after);
      return if e == 0 then More else Failed(e), end, more;
    }

    /** The three header bits: one final block, fixed codes. */
    method ReadHeader(b: BitArray) returns (ok: bool)
      requires b.Valid()
      modifies b
      ensures b.Valid() && b.SuppliedFrom(old(b.data), old(b.refills))
      ensures ok == ([1, 1, 0] <= old(b.Stream()))
      ensures ok ==> old(b.Stream()) == [1, 1, 0] + b.Stream()
    {
      hide BitArray.Stream;
      ghost var all := b.Stream();
      var final := FetchExtra(b, 1);
      OneBit(if final >= 0 then final else 0);
      if final != 1 {
        if final >= 0 {
          assert BitList(final, 1) == [final];
          assert all[0] == final != 1;
        }
        return false;
      }
      ghost var middle := b.Stream();
      assert all == [1] + middle;
      var kind := FetchExtra(b, 2);
      TwoBits(if kind >= 0 then kind else 0);
      if kind != 1 {
        if kind >= 0 {
          assert BitList(kind, 2) == [kind % 2, kind / 2];
          assert all[1] == kind % 2 && all[2] == kind / 2;
        }
        return false;
      }
      return true;
    }

    /** inflate: decodes one block into `out`.

        It returns 0 or 1 exactly for the header and body of a block whose bytes fit into `size`: the bytes are
        then in the output, `produced` is their number, and 0 says that this is `size`.  Nothing but the block
        is consumed, whatever windows the input comes in.  `got` is what was read; `sent` and `rest` are what
        any sender may have put into the stream.
     */
    method Inflate(b: BitArray, out: array<byte>, size: nat, ghost sent: seq<Item>, ghost rest: seq<bit>)
      returns (r: int, produced: nat, ghost got: seq<Item>)
      requires Valid() && b.Valid() && size <= out.Length
      requires out != b.data && out !in b.refills
      modifies this, code, dist, code.lengths, dist.lengths, b, out
      ensures Valid() && b.Valid()
      ensures 0 <= r <= 5
      ensures r == 2 <==> !([1, 1, 0] <= old(b.Stream()))
      ensures r <= 1 ==>
                && AllValid(got) && Reaches(got) && produced == |Expand(got)| <= size
                && old(b.Stream()) == Block(got) + b.Stream()
                && out[..produced] == Expand(got)
                && (r == 0 <==> produced == size)
      ensures Sends(sent, size, old(b.Stream()), rest) ==> r <= 1 && got == sent && b.Stream() == rest
      ensures out[size..] == old(out[size..])
      ensures r > 1 ==> produced == size
    {
      hide BitArray.Stream, SymbolWord, BitList, Body, Block, Item.CodedBits, ItemsBits, Expand, Reaches, Repeat,
           Awaited, Sends, Feasible, CodeLengths, DistLengths, Huffman.Valid;
      got := [];
      produced := size;
      if !initialized {
        Init();
      }
      ghost var all := b.Stream();
      ghost var expected := Sends(sent, size, all, rest);
      var header := ReadHeader(b);
      BlockStart(sent, size, all, rest, b.Stream());
      if !header {
        return 2, produced, got;
      }
      NoItems(b.Stream());
      var off: nat := 0;
      while true
        invariant Valid() && initialized && b.Valid() && off <= size
        invariant b.SuppliedFrom(old(b.data), old(b.refills))
        invariant AllValid(got) && Reaches(got) && out[..off] == Expand(got)
        invariant all == [1, 1, 0] + (ItemsBits(got) + b.Stream())
        invariant out[size..] == old(out[size..])
        invariant expected ==> Awaited(sent, size, got, b.Stream(), rest)
        decreases |b.Stream()|
      {
        var round;
        round, off, got := Round(b, out, off, size, got, sent, rest);
        match round {
          case More =>
          case Done =>
            WholeBlock(got, b.Stream());
            produced := off;
            return if size != off then 1 else 0, produced, got;
          case Failed(code) =>
            return code, produced, got;
        }
      }
    }
  }
}
