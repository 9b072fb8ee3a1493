/** What huffman_table and bitarray_shove write, huffman_fetch reads back. */
module HuffmanRoundTrips {
  import opened Machine
  import opened Sequences
  import opened BitStrings
  import opened BitArrays
  import opened Canonical
  import opened Huffmans

  ghost predicate AllCoded(lens: Lengths, syms: seq<nat>)
  {
    forall k | 0 <= k < |syms| :: Coded(lens, syms[k])
  }

  /** The code words of the symbols, one after the other. */
  ghost function Words(lens: Lengths, syms: seq<nat>): seq<bit>
    requires AllCoded(lens, syms)
  {
    if syms == [] then [] else Word(lens, syms[0]) + Words(lens, syms[1..])
  }

  lemma {:induction false} WordsSnoc(lens: Lengths, syms: seq<nat>, s: nat)
    requires AllCoded(lens, syms) && Coded(lens, s)
    ensures Words(lens, syms + [s]) == Words(lens, syms) + Word(lens, s)
  {
    hide Word;
    if syms == [] {
      assert syms + [s] == [s];
      assert Words(lens, [s]) == Word(lens, s) + Words(lens, []);
    } else {
      WordsSnoc(lens, syms[1..], s);
      assert (syms + [s])[1..] == syms[1..] + [s];
      ConcatAssociative(Word(lens, syms[0]), Words(lens, syms[1..]), Word(lens, s));
    }
  }

  lemma {:induction false} WordsOfFirst(lens: Lengths, syms: seq<nat>, k: nat)
    requires AllCoded(lens, syms) && k <= |syms|
    ensures |Words(lens, syms[..k])| <= |Words(lens, syms)|
  {
    if k > 0 {
      assert syms[..k][1..] == syms[1..][..k - 1];
      WordsOfFirst(lens, syms[1..], k - 1);
    }
  }

  /** The entries of a table made by huffman_table. */
  ghost predicate TableOf(lens: Lengths, table: seq<nat>)
  {
    forall s | Coded(lens, s) :: Entered(lens, s, table)
  }

  lemma EntryBits(lens: Lengths, table: seq<nat>, s: nat)
    requires TableOf(lens, table) && Coded(lens, s)
    ensures 2 * s + 1 < |table| && BitList(table[2 * s + 1], table[2 * s]) == Word(lens, s)
  {
    assert Entered(lens, s, table);
  }

  /** After n bits so many bits are pending and so much room is left. */
  ghost predicate Spent(pending: nat, room: nat, n: nat, count: nat, left: int)
  {
    left == room - (pending + n) / 8 && count == (pending + n) % 8
  }

  lemma SpentIs(pending: nat, room: nat, n: nat, count: nat, left: nat)
    requires Spent(pending, room, n, count, left)
    ensures left == room - (pending + n) / 8 && count == (pending + n) % 8 && (pending + n) / 8 <= room
  {
  }

  /** k more bits, of `all` bits that are to come. */
  lemma SpentMore(pending: nat, room: nat, n: nat, count: nat, left: nat, k: nat, all: nat)
    requires Spent(pending, room, n, count, left) && n + k <= all
    ensures Spent(pending, room, n + k, (count + k) % 8, left - (count + k) / 8)
    ensures (count + k) / 8 > left ==> (pending + all) / 8 > room
  {
    var q, r := (pending + n) / 8, (pending + n) % 8;
    assert pending + n + k == 8 * q + (count + k);
    assert (pending + all) / 8 >= (pending + n + k) / 8;
  }

  lemma PackStart(lens: Lengths, syms: seq<nat>, pending: nat, room: nat)
    requires pending < 8
    ensures AllCoded(lens, syms[..0]) && Words(lens, syms[..0]) == [] && Spent(pending, room, 0, pending, room)
  {
  }

  /** The k-th symbol: its entry is its code word, which comes behind those before it. */
  lemma PackNext(lens: Lengths, table: seq<nat>, syms: seq<nat>, k: nat)
    requires TableOf(lens, table) && AllCoded(lens, syms) && k < |syms|
    ensures var s := syms[k];
            && 2 * s + 1 < |table| && AllCoded(lens, syms[..k]) && AllCoded(lens, syms[..k + 1])
            && Words(lens, syms[..k + 1]) == Words(lens, syms[..k]) + BitList(table[2 * s + 1], table[2 * s])
            && |Words(lens, syms[..k + 1])| == |Words(lens, syms[..k])| + table[2 * s] <= |Words(lens, syms)|
  {
    hide Word, BitList, Words, TableOf;
    var s := syms[k];
    EntryBits(lens, table, s);
    assert syms[..k + 1] == syms[..k] + [s];
    WordsSnoc(lens, syms[..k], s);
    WordsOfFirst(lens, syms, k + 1);
  }

  /** Packs the symbols by table; the output grows by exactly their code words. */
  method Pack(b: BitArray, ghost lens: Lengths, table: seq<nat>, syms: seq<nat>) returns (ok: bool)
    requires b.WriterValid() && TableOf(lens, table) && AllCoded(lens, syms)
    modifies b, b.data, b.refills
    ensures b.WriterValid() && b.SuppliedFrom(old(b.data), old(b.refills))
    ensures ok == ((old(b.count) + |Words(lens, syms)|) / 8 <= old(b.Room()))
    ensures ok ==> b.Shoved() == old(b.Shoved()) + Words(lens, syms)
    ensures ok ==> b.Room() == old(b.Room()) - (old(b.count) + |Words(lens, syms)|) / 8
    ensures ok ==> b.count == (old(b.count) + |Words(lens, syms)|) % 8
  {
    hide BitArray.Shoved, BitArray.Room, BitArray.Output, Word, Coded, BitList, TableOf, Entered, EntryFor;
    hide Words, AllCoded, Spent, Distinct;
    ghost var before, pending, room := b.Shoved(), b.count, b.Room();
    PackStart(lens, syms, pending, room);
    for k := 0 to |syms|
      invariant b.WriterValid() && b.SuppliedFrom(old(b.data), old(b.refills))
      invariant AllCoded(lens, syms[..k])
      invariant b.Shoved() == before + Words(lens, syms[..k])
      invariant Spent(pending, room, |Words(lens, syms[..k])|, b.count, b.Room())
    {
      var s := syms[k];
      PackNext(lens, table, syms, k);
      SpentMore(pending, room, |Words(lens, syms[..k])|, b.count, b.Room(), table[2 * s], |Words(lens, syms)|);
      var stored := b.Shove(table[2 * s], table[2 * s + 1]);
      if !stored {
        return false;
      }
    }
    assert syms[..|syms|] == syms;
    SpentIs(pending, room, |Words(lens, syms)|, b.count, b.Room());
    return true;
  }

  lemma ValidIsFeasible(h: Huffman)
    requires h.Valid()
    ensures Feasible(h.lens)
  {
  }

  /** Reads as many symbols as were packed, from a stream that starts with them. */
  method Unpack(h: Huffman, b: BitArray, n: nat, ghost packed: seq<nat>, ghost rest: seq<bit>) returns (syms: seq<nat>)
    requires h.Valid() && b.Valid()
    requires AllCoded(h.lens, packed) && n == |packed|
    requires b.Stream() == Words(h.lens, packed) + rest
    modifies b
    ensures b.Valid()
    ensures syms == packed && b.Stream() == rest
  {
    hide BitArray.Stream, Word, Huffman.Valid;
    syms := [];
    for k := 0 to n
      invariant b.Valid() && h.Valid() && h.lens == old(h.lens) && syms == packed[..k]
      invariant AllCoded(h.lens, packed[k..])
      invariant b.Stream() == Words(h.lens, packed[k..]) + rest
    {
      ghost var before := b.Stream();
      ghost var s := packed[k];
      assert packed[k..][1..] == packed[k + 1..];
      ConcatAssociative(Word(h.lens, s), Words(h.lens, packed[k + 1..]), rest);
      var r := h.Fetch(b);
      assert Word(h.lens, s) <= before;
      ValidIsFeasible(h);
      SameWord(h.lens, r, s, before);
      CancelPrefix(Word(h.lens, s), b.Stream(), Words(h.lens, packed[k + 1..]) + rest);
      syms := syms + [r];
    }
  }

  /** The bytes held by a list of windows. */
  ghost function Contents(windows: seq<array<byte>>): seq<byte>
    reads windows
  {
    if windows == [] then [] else windows[0][..] + Contents(windows[1..])
  }

  /** How the bytes are cut into windows does not matter. */
  lemma {:induction false} AnyCut(windows: seq<array<byte>>)
    requires forall k | 0 <= k < |windows| :: windows[k].Length > 0
    ensures Supply(windows) == Bits(Contents(windows))
  {
    if windows != [] {
      AnyCut(windows[1..]);
      BitsAppend(windows[0][..], Contents(windows[1..]));
    }
  }

  lemma NoBytes()
    ensures Bits([]) == []
  {
  }

  method NewReader(windows: seq<array<byte>>) returns (b: BitArray)
    requires forall k | 0 <= k < |windows| :: windows[k].Length > 0
    ensures fresh(b) && b.Valid() && b.Stream() == Bits(Contents(windows))
  {
    hide Bits, BitArray.Stream;
    AnyCut(windows);
    var nothing := new byte[0];
    b := new BitArray(nothing, 0, windows);
    assert nothing[..0] == [];
    NoBytes();
  }

  /** Bytes that hold the code words and some padding, in any non-empty windows, give the symbols. */
  method Receive(h: Huffman, windows: seq<array<byte>>, n: nat,
                 ghost packed: seq<nat>, ghost padding: seq<bit>)
    returns (syms: seq<nat>)
    requires h.Valid() && AllCoded(h.lens, packed) && n == |packed|
    requires forall k | 0 <= k < |windows| :: windows[k].Length > 0
    requires Bits(Contents(windows)) == Words(h.lens, packed) + padding
    ensures syms == packed
  {
    hide Word, Words, Bits, Contents, BitArray.Stream, BitArray.Valid, Huffman.Valid;
    var b := NewReader(windows);
    syms := Unpack(h, b, n, packed, padding);
  }

  // ----- The windows of both sides

  /** How many bytes windows of these sizes hold, up to the first refusal. */
  function Total(sizes: seq<nat>): (n: nat)
  {
    if sizes == [] || sizes[0] == 0 then 0 else sizes[0] + Total(sizes[1..])
  }

  lemma {:induction false} CapacityIsTotal(windows: seq<array<byte>>, sizes: seq<nat>)
    requires |windows| == |sizes| && forall k | 0 <= k < |sizes| :: windows[k].Length == sizes[k]
    ensures Capacity(windows) == Total(sizes)
  {
    if sizes != [] && sizes[0] > 0 {
      CapacityIsTotal(windows[1..], sizes[1..]);
    }
  }

  // The windows that the callback of a writer has to offer.
  method MakeWindows(sizes: seq<nat>) returns (windows: seq<array<byte>>)
    ensures |windows| == |sizes| && Distinct(windows)
    ensures forall k | 0 <= k < |sizes| :: fresh(windows[k]) && windows[k].Length == sizes[k]
  {
    windows := [];
    for k := 0 to |sizes|
      invariant |windows| == k && Distinct(windows)
      invariant forall j | 0 <= j < k :: fresh(windows[j]) && windows[j].Length == sizes[j]
    {
      var w := new byte[sizes[k]];
      windows := windows + [w];
    }
  }

  /** n bytes cut at the given sizes, none of them zero; what is left over is the last piece. */
  function Pieces(n: nat, cuts: seq<nat>): (sizes: seq<nat>)
    ensures forall k | 0 <= k < |sizes| :: sizes[k] > 0
  {
    if n == 0 then []
    else if cuts == [] || cuts[0] == 0 || cuts[0] >= n then [n]
    else [cuts[0]] + Pieces(n - cuts[0], cuts[1..])
  }

  /** Every cut into non-empty pieces is one of these. */
  lemma {:induction false} EveryCut(sizes: seq<nat>)
    requires forall k | 0 <= k < |sizes| :: sizes[k] > 0
    ensures Pieces(Total(sizes), sizes) == sizes
  {
    if sizes != [] {
      EveryCut(sizes[1..]);
      if |sizes| > 1 {
        assert Total(sizes[1..]) > 0;
      }
    }
  }

  // The windows in which the callback of a reader supplies the bytes.
  method Divide(bytes: seq<byte>, cuts: seq<nat>) returns (windows: seq<array<byte>>)
    ensures Contents(windows) == bytes
    ensures |windows| == |Pieces(|bytes|, cuts)|
    ensures forall k | 0 <= k < |windows| :: fresh(windows[k]) && windows[k].Length == Pieces(|bytes|, cuts)[k]
    decreases cuts
  {
    if bytes == [] {
      return [];
    }
    var size := if cuts == [] || cuts[0] == 0 || cuts[0] >= |bytes| then |bytes| else cuts[0];
    var first := new byte[size](i requires 0 <= i < size <= |bytes| => bytes[i]);
    assert first[..] == bytes[..size];
    if size == |bytes| {
      windows := [first];
      assert Contents(windows) == first[..] + Contents([]);
    } else {
      var rest := Divide(bytes[size..], cuts[1..]);
      windows := [first] + rest;
      assert windows[1..] == rest;
    }
  }

  /** When a table of this size holds an entry for every coded symbol: the test of huffman_table. */
  ghost predicate TableFits(lens: Lengths, n: nat)
    requires InRange(lens)
  {
    n == 2 * CodedCount(lens) && forall s | Coded(lens, s) :: 2 * s < n
  }

  lemma TableIsTable(lens: Lengths, table: array<nat>)
    requires forall s | Coded(lens, s) :: 2 * s + 1 < table.Length && EntryFor(lens, s, table[2 * s], table[2 * s + 1])
    ensures TableOf(lens, table[..])
  {
    hide EntryFor;
  }

  method NewWriter(room: seq<nat>) returns (w: BitArray)
    ensures fresh(w) && fresh(w.data) && fresh(w.refills) && w.WriterValid()
    ensures w.Shoved() == [] && w.count == 0 && w.Room() == Total(room)
  {
    hide BitArray.Shoved, BitArray.Output;
    var supply := MakeWindows(room);
    CapacityIsTotal(supply, room);
    var nothing := new byte[0];
    w := new BitArray(nothing, 0, supply);
  }

  lemma WholeBytes(n: nat, room: nat)
    ensures (n + 7) / 8 <= room <==> n / 8 <= room && (n % 8 == 0 || room - n / 8 > 0)
  {
  }

  lemma {:induction false} Zeros(n: nat)
    ensures forall k | 0 <= k < n :: BitList(0, n)[k] == 0
  {
    if n > 0 {
      Zeros(n - 1);
    }
  }

  // The sender: the windows of its callback have the given sizes.  Its bytes are what the callback has received and
  // the written part of the last window.
  method Send(ghost lens: Lengths, table: seq<nat>, packed: seq<nat>, room: seq<nat>)
    returns (sent: bool, bytes: seq<byte>, ghost padding: seq<bit>)
    requires TableOf(lens, table) && AllCoded(lens, packed)
    ensures sent == ((|Words(lens, packed)| + 7) / 8 <= Total(room))
    ensures sent ==> Bits(bytes) == Words(lens, packed) + padding && |padding| < 8
    ensures sent ==> forall k | 0 <= k < |padding| :: padding[k] == 0
  {
    hide BitArray.Shoved, BitArray.Room, BitArray.Output, Bits, BitList, TableOf, AllCoded, Words;
    var w := NewWriter(room);
    WholeBytes(|Words(lens, packed)|, Total(room));
    sent := Pack(w, lens, table, packed);
    bytes, padding := [], [];
    if sent {
      padding := BitList(0, (8 - w.count) % 8);
      Zeros((8 - w.count) % 8);
      var stored;
      sent, stored := w.Written();
      bytes := w.Output();
    }
  }

  // The preparation that both sides share.
  method MakeTable(symbols: array<nat>, table: array<nat>) returns (ok: bool, h: Huffman)
    requires symbols != table && symbols.Length < 0x1000_0000
    modifies symbols, table
    ensures ok == old(InRange(symbols[..]) && Feasible(symbols[..]) && TableFits(symbols[..], table.Length))
    ensures ok ==> h.Valid() && h.lens == old(symbols[..]) && TableOf(h.lens, table[..])
  {
    hide TableOf, EntryFor, KraftSum, Feasible, InRange, SortedSymbols, CodedCount, Huffman.Valid, Coded, Pow2;
    var lengths := new nat[16];
    h := new Huffman(lengths);
    var accepted := h.Init(symbols);
    if accepted != 0 {
      return false, h;
    }
    var tabled := h.Table(table, table.Length);
    if tabled != 0 {
      return false, h;
    }
    TableIsTable(h.lens, table);
    return true, h;
  }

  method Deliver(h: Huffman, bytes: seq<byte>, cuts: seq<nat>, n: nat, ghost packed: seq<nat>, ghost padding: seq<bit>)
    returns (syms: seq<nat>)
    requires h.Valid() && AllCoded(h.lens, packed) && n == |packed|
    requires Bits(bytes) == Words(h.lens, packed) + padding
    ensures syms == packed
  {
    hide *;
    var windows := Divide(bytes, cuts);
    syms := Receive(h, windows, n, packed, padding);
  }

  /** The whole way: huffman_init on the lengths, huffman_table, bitarray_shove symbol by symbol into windows of any
      sizes, bitarray_written, the bytes cut in any way, and huffman_fetch.  It gets through exactly if the lengths are
      accepted, the table has the right size and the bytes find room, and then all symbols come back. */
  method ReadBack(symbols: array<nat>, table: array<nat>, packed: seq<nat>, room: seq<nat>, cuts: seq<nat>)
    returns (ok: bool, syms: seq<nat>)
    requires symbols != table && symbols.Length < 0x1000_0000
    requires AllCoded(symbols[..], packed)
    modifies symbols, table
    ensures ok == old(var lens := symbols[..];
                      && InRange(lens) && Feasible(lens) && TableFits(lens, table.Length)
                      && (|Words(lens, packed)| + 7) / 8 <= Total(room))
    ensures ok ==> syms == packed
  {
    hide AllCoded, Words, TableOf, Huffman.Valid, Bits, KraftSum, Feasible, TableFits, Total;
    ghost var lens: Lengths := symbols[..];
    var tabled, h := MakeTable(symbols, table);
    if !tabled {
      return false, [];
    }
    var sent, bytes, padding := Send(lens, table[..], packed, room);
    if !sent {
      return false, [];
    }
    syms := Deliver(h, bytes, cuts, |packed|, packed, padding);
    return true, syms;
  }
}
