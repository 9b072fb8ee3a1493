/** The cells of a file allocation table: 12, 16 or 28 bits of a byte string (common/fat.c).

    Shifts and masks of the C code are divisions and remainders by powers of two.
 */
module FatCells {
  import opened Machine

  datatype Kind = Fat12 | Fat16 | Fat32

  const END_MARK: nat := 0x0FFF_FFFF
  const FIRST_END: nat := 0x0FFF_FFF8   // this and above end a chain

  // LE16, LE32, W_LE16 and W_LE32.
  function Read16(b: seq<byte>, i: nat): (v: nat)
    requires i + 2 <= |b|
    ensures v < 0x1_0000
  {
    b[i] as int + 0x100 * (b[i + 1] as int)
  }

  function Read32(b: seq<byte>, i: nat): (v: nat)
    requires i + 4 <= |b|
    ensures v < 0x1_0000_0000
  {
    Read16(b, i) + 0x1_0000 * Read16(b, i + 2)
  }

  function Write16(b: seq<byte>, i: nat, v: nat): (r: seq<byte>)
    requires i + 2 <= |b|
    ensures |r| == |b|
  {
    b[i := v % 0x100][i + 1 := v / 0x100 % 0x100]
  }

  function Write32(b: seq<byte>, i: nat, v: nat): (r: seq<byte>)
    requires i + 4 <= |b|
    ensures |r| == |b|
  {
    Write16(Write16(b, i, v % 0x1_0000), i + 2, v / 0x1_0000 % 0x1_0000)
  }

  /** Where the word that holds cell k starts. */
  function CellStart(kind: Kind, k: nat): nat
  {
    match kind
    case Fat12 => k + k / 2
    case Fat16 => 2 * k
    case Fat32 => 4 * k
  }

  function CellWidth(kind: Kind): nat
  {
    if kind.Fat32? then 4 else 2
  }

  /** The word of cell k lies within n bytes. */
  predicate CellFits(kind: Kind, n: nat, k: nat)
  {
    CellStart(kind, k) + CellWidth(kind) <= n
  }

  /** The value in the word at position i. */
  function WordValue(kind: Kind, b: seq<byte>, i: nat, k: nat): (v: nat)
    requires i + CellWidth(kind) <= |b|
    ensures v < 0x1000_0000
  {
    match kind
    case Fat12 =>
      var w := Read16(b, i);
      var v := (if k % 2 == 1 then w / 0x10 else w) % 0x1000;
      if v >= 0x0FF8 then v + 0x0FFF_F000 else v
    case Fat16 =>
      var v := Read16(b, i);
      if v >= 0xFFF8 then v + 0x0FFF_0000 else v
    case Fat32 =>
      Read32(b, i) % 0x1000_0000
  }

  /** The bytes after the word at position i has been given a new value; bits of the word that belong to
      another cell, or to none, are kept. */
  function WithWord(kind: Kind, b: seq<byte>, i: nat, k: nat, val: nat): (r: seq<byte>)
    requires i + CellWidth(kind) <= |b|
    ensures |r| == |b|
  {
    match kind
    case Fat12 =>
      var w := Read16(b, i);
      if k % 2 == 1 then Write16(b, i, val % 0x1000 * 0x10 + w % 0x10)
      else Write16(b, i, val % 0x1000 + w / 0x1000 * 0x1000)
    case Fat16 =>
      Write16(b, i, val)
    case Fat32 =>
      var w := Read32(b, i);
      Write32(b, i, val % 0x1000_0000 + w / 0x1000_0000 * 0x1000_0000)
  }

  function Cell(kind: Kind, b: seq<byte>, k: nat): nat
    requires CellFits(kind, |b|, k)
  {
    WordValue(kind, b, CellStart(kind, k), k)
  }

  function WithCell(kind: Kind, b: seq<byte>, k: nat, val: nat): (r: seq<byte>)
    requires CellFits(kind, |b|, k)
    ensures |r| == |b|
  {
    WithWord(kind, b, CellStart(kind, k), k, val)
  }

  /** What is read back of a stored value. */
  function Stored(kind: Kind, val: nat): nat
  {
    match kind
    case Fat12 => var v := val % 0x1000; if v >= 0x0FF8 then v + 0x0FFF_F000 else v
    case Fat16 => var v := val % 0x1_0000; if v >= 0xFFF8 then v + 0x0FFF_0000 else v
    case Fat32 => val % 0x1000_0000
  }

  /** The values that a table with this many entries is meant to hold. */
  predicate Storable(kind: Kind, val: nat)
  {
    val == END_MARK ||
    match kind
    case Fat12 => val < 0x0FF8
    case Fat16 => val < 0xFFF8
    case Fat32 => val < FIRST_END
  }

  lemma StoredIsSame(kind: Kind, val: nat)
    requires Storable(kind, val)
    ensures Stored(kind, val) == val
  {
  }

  lemma Halves(v: nat)
    ensures v % 0x100 + 0x100 * (v / 0x100 % 0x100) == v % 0x1_0000
  {
    var q, r := v / 0x1_0000, v % 0x1_0000;
    assert v == 0x1_0000 * q + r;
    assert v / 0x100 == 0x100 * q + r / 0x100;
  }

  lemma ReadWrite16(b: seq<byte>, i: nat, v: nat)
    requires i + 2 <= |b|
    ensures Read16(Write16(b, i, v), i) == v % 0x1_0000
  {
    Halves(v);
  }

  lemma Write16Elsewhere(b: seq<byte>, i: nat, v: nat, j: nat)
    requires i + 2 <= |b| && j + 2 <= |b| && (j + 2 <= i || i + 2 <= j)
    ensures Read16(Write16(b, i, v), j) == Read16(b, j)
  {
  }

  lemma ReadWrite32(b: seq<byte>, i: nat, v: nat)
    requires i + 4 <= |b| && v < 0x1_0000_0000
    ensures Read32(Write32(b, i, v), i) == v
  {
    hide Read16, Write16;
    var c := Write16(b, i, v % 0x1_0000);
    ReadWrite16(b, i, v % 0x1_0000);
    ReadWrite16(c, i + 2, v / 0x1_0000 % 0x1_0000);
    Write16Elsewhere(c, i + 2, v / 0x1_0000 % 0x1_0000, i);
  }

  lemma Write32Elsewhere(b: seq<byte>, i: nat, v: nat, j: nat)
    requires i + 4 <= |b| && j + 4 <= |b| && (j + 4 <= i || i + 4 <= j)
    ensures Read32(Write32(b, i, v), j) == Read32(b, j)
  {
  }

  lemma HighNibble(v: nat, high: nat)
    requires v < 0x1000 && high < 0x10
    ensures v + high * 0x1000 < 0x1_0000 && (v + high * 0x1000) % 0x1000 == v
  {
  }

  lemma Nibbles(v: nat, low: nat)
    requires v < 0x1000 && low < 0x10
    ensures v * 0x10 + low < 0x1_0000 && (v * 0x10 + low) / 0x10 == v
  {
  }

  lemma ReadBack12(b: seq<byte>, i: nat, k: nat, val: nat)
    requires i + 2 <= |b|
    ensures WordValue(Fat12, WithWord(Fat12, b, i, k, val), i, k) == Stored(Fat12, val)
  {
    hide Read16, Write16;
    var w := Read16(b, i);
    var v, low, high := val % 0x1000, w % 0x10, w / 0x1000;
    Nibbles(v, low);
    HighNibble(v, high);
    if k % 2 == 1 {
      ReadWrite16(b, i, v * 0x10 + low);
    } else {
      ReadWrite16(b, i, v + high * 0x1000);
    }
  }

  lemma TopBits(v: nat, high: nat)
    requires v < 0x1000_0000 && high < 0x10
    ensures v + high * 0x1000_0000 < 0x1_0000_0000
    ensures (v + high * 0x1000_0000) % 0x1000_0000 == v && (v + high * 0x1000_0000) / 0x1000_0000 == high
  {
  }

  lemma ReadBack32(b: seq<byte>, i: nat, k: nat, val: nat)
    requires i + 4 <= |b|
    ensures WordValue(Fat32, WithWord(Fat32, b, i, k, val), i, k) == Stored(Fat32, val)
  {
    hide Read32, Write32;
    var v, high := val % 0x1000_0000, Read32(b, i) / 0x1000_0000;
    TopBits(v, high);
    ReadWrite32(b, i, v + high * 0x1000_0000);
  }

  /** A stored value is read back. */
  lemma CellReadBack(kind: Kind, b: seq<byte>, k: nat, val: nat)
    requires CellFits(kind, |b|, k)
    ensures Cell(kind, WithCell(kind, b, k, val), k) == Stored(kind, val)
  {
    hide Read16, Write16, Read32, Write32;
    var i := CellStart(kind, k);
    match kind
    case Fat12 => ReadBack12(b, i, k, val);
    case Fat16 => ReadWrite16(b, i, val);
    case Fat32 => ReadBack32(b, i, k, val);
  }

  lemma Apart12(k: nat, n: nat)
    requires n != k && !(k % 2 == 0 && n == k + 1) && !(k % 2 == 1 && k == n + 1)
    ensures var i, j := CellStart(Fat12, k), CellStart(Fat12, n); j + 2 <= i || i + 2 <= j
  {
  }

  lemma Share12Low(b: seq<byte>, i: nat, val: nat)
    requires i + 3 <= |b|
    ensures var w := Read16(b, i);
            Read16(Write16(b, i, val % 0x1000 + w / 0x1000 * 0x1000), i + 1) / 0x10 == Read16(b, i + 1) / 0x10
  {
    var w := Read16(b, i);
    var v := val % 0x1000 + w / 0x1000 * 0x1000;
    assert w / 0x1000 == b[i + 1] / 0x10;
    assert v / 0x100 % 0x100 / 0x10 == b[i + 1] / 0x10;
  }

  lemma Share12High(b: seq<byte>, i: nat, val: nat)
    requires 1 <= i && i + 2 <= |b|
    ensures var w := Read16(b, i);
            Read16(Write16(b, i, val % 0x1000 * 0x10 + w % 0x10), i - 1) % 0x1000 == Read16(b, i - 1) % 0x1000
  {
    var w := Read16(b, i);
    var v := val % 0x1000 * 0x10 + w % 0x10;
    assert w % 0x10 == b[i] % 0x10;
    assert v % 0x100 % 0x10 == b[i] % 0x10;
  }

  /** Storing a value changes no other cell, even one that shares a byte. */
  lemma CellElsewhere(kind: Kind, b: seq<byte>, k: nat, val: nat, n: nat)
    requires CellFits(kind, |b|, k) && CellFits(kind, |b|, n) && n != k
    ensures Cell(kind, WithCell(kind, b, k, val), n) == Cell(kind, b, n)
  {
    var i, j := CellStart(kind, k), CellStart(kind, n);
    match kind
    case Fat12 =>
      if k % 2 == 0 && n == k + 1 {
        Share12Low(b, i, val);
      } else if k % 2 == 1 && k == n + 1 {
        Share12High(b, i, val);
      } else {
        hide Read16, Write16;
        Apart12(k, n);
        var w := Read16(b, i);
        Write16Elsewhere(b, i, val % 0x1000 * 0x10 + w % 0x10, j);
        Write16Elsewhere(b, i, val % 0x1000 + w / 0x1000 * 0x1000, j);
      }
    case Fat16 =>
      Write16Elsewhere(b, i, val, j);
    case Fat32 =>
      hide Read32, Write32;
      var w := Read32(b, i);
      Write32Elsewhere(b, i, val % 0x1000_0000 + w / 0x1000_0000 * 0x1000_0000, j);
  }

  /** The top four bits of a 32-bit cell are nobody's and stay. */
  lemma TopBitsKept(b: seq<byte>, k: nat, val: nat, n: nat)
    requires CellFits(Fat32, |b|, k) && CellFits(Fat32, |b|, n)
    ensures Read32(WithCell(Fat32, b, k, val), CellStart(Fat32, n)) / 0x1000_0000
            == Read32(b, CellStart(Fat32, n)) / 0x1000_0000
  {
    hide Read32, Write32;
    var i, w := CellStart(Fat32, k), Read32(b, CellStart(Fat32, k));
    var v := val % 0x1000_0000 + w / 0x1000_0000 * 0x1000_0000;
    TopBits(val % 0x1000_0000, w / 0x1000_0000);
    if n == k {
      ReadWrite32(b, i, v);
    } else {
      Write32Elsewhere(b, i, v, CellStart(Fat32, n));
    }
  }

  // ----- The layout on disk, byte by byte

  /** The number in the bits of cell k.  Bytes of low weight come first; two 12-bit cells share three bytes; the top four
      bits of a 32-bit cell do not count. */
  function Raw(kind: Kind, b: seq<byte>, k: nat): (raw: int)
    requires CellFits(kind, |b|, k)
  {
    match kind
    case Fat12 =>
      var m := 3 * (k / 2);
      var b1: int := b[m + 1];
      if k % 2 == 0 then b[m] as int + b1 % 0x10 * 0x100 else b1 / 0x10 + b[m + 2] as int * 0x10
    case Fat16 =>
      b[2 * k] as int + b[2 * k + 1] as int * 0x100
    case Fat32 =>
      b[4 * k] as int + b[4 * k + 1] as int * 0x100 + b[4 * k + 2] as int * 0x1_0000
      + b[4 * k + 3] as int % 0x10 * 0x100_0000
  }

  /** The bytes of cell k spell v: the last eight values of the shorter cells stand for the last eight of 28 bits. */
  predicate Spells(kind: Kind, b: seq<byte>, k: nat, v: nat)
    requires CellFits(kind, |b|, k)
  {
    var raw := Raw(kind, b, k);
    match kind
    case Fat12 => v == if 0xFF8 <= raw then 0x0FFF_FFF8 + (raw - 0xFF8) else raw
    case Fat16 => v == if 0xFFF8 <= raw then 0x0FFF_FFF8 + (raw - 0xFFF8) else raw
    case Fat32 => v == raw
  }

  lemma Modulo28(low: nat, top: nat)
    requires low < 0x100_0000 && top < 0x100
    ensures (low + top * 0x100_0000) % 0x1000_0000 == low + top % 0x10 * 0x100_0000
  {
    assert low + top * 0x100_0000 == (low + top % 0x10 * 0x100_0000) + top / 0x10 * 0x1000_0000;
  }

  lemma Cell32Layout(b: seq<byte>, k: nat)
    requires CellFits(Fat32, |b|, k)
    ensures Spells(Fat32, b, k, Cell(Fat32, b, k))
  {
    var i := 4 * k;
    Modulo28(b[i] as int + b[i + 1] as int * 0x100 + b[i + 2] as int * 0x1_0000, b[i + 3]);
  }

  lemma Halves12(low: nat, high: nat)
    requires low < 0x100 && high < 0x100
    ensures (low + 0x100 * high) % 0x1000 == low + high % 0x10 * 0x100
    ensures (low + 0x100 * high) / 0x10 % 0x1000 == low / 0x10 + high * 0x10
  {
    assert low + 0x100 * high == low + 0x100 * (high % 0x10) + 0x1000 * (high / 0x10);
  }

  lemma Cell12Layout(b: seq<byte>, k: nat)
    requires CellFits(Fat12, |b|, k)
    ensures Spells(Fat12, b, k, Cell(Fat12, b, k))
  {
    var i := CellStart(Fat12, k);
    Halves12(b[i], b[i + 1]);
    assert i == 3 * (k / 2) + k % 2;
  }

  /** The value of a cell is the one that its bytes spell, and no other. */
  lemma CellLayout(kind: Kind, b: seq<byte>, k: nat, v: nat)
    requires CellFits(kind, |b|, k)
    ensures Spells(kind, b, k, v) <==> v == Cell(kind, b, k)
  {
    match kind
    case Fat12 => Cell12Layout(b, k);
    case Fat16 =>
    case Fat32 => Cell32Layout(b, k);
  }

  /** A chain ends at the last eight values of a cell of its width. */
  lemma EndsOfChains(kind: Kind, b: seq<byte>, k: nat)
    requires CellFits(kind, |b|, k)
    ensures Cell(kind, b, k) >= FIRST_END <==>
              Raw(kind, b, k) >= match kind case Fat12 => 0xFF8 case Fat16 => 0xFFF8 case Fat32 => 0x0FFF_FFF8
  {
    hide Cell;
    CellLayout(kind, b, k, Cell(kind, b, k));
  }

  /** The bytes c differ from b in that cell k spells the low bits of val; the bits beside it are as before. */
  predicate Respelled(kind: Kind, b: seq<byte>, c: seq<byte>, k: nat, val: nat)
    requires CellFits(kind, |b|, k)
  {
    && |c| == |b|
    && match kind
       case Fat12 =>
         var m := 3 * (k / 2);
         var b1: int, c1: int := b[m + 1], c[m + 1];
         if k % 2 == 0 then
           && c == b[m := c[m]][m + 1 := c[m + 1]]
           && c[m] == val % 0x100 && c1 % 0x10 == val / 0x100 % 0x10 && c1 / 0x10 == b1 / 0x10
         else
           && c == b[m + 1 := c[m + 1]][m + 2 := c[m + 2]]
           && c1 % 0x10 == b1 % 0x10 && c1 / 0x10 == val % 0x10 && c[m + 2] == val / 0x10 % 0x100
       case Fat16 =>
         && c == b[2 * k := c[2 * k]][2 * k + 1 := c[2 * k + 1]]
         && c[2 * k] == val % 0x100 && c[2 * k + 1] == val / 0x100 % 0x100
       case Fat32 =>
         var b3: int, c3: int := b[4 * k + 3], c[4 * k + 3];
         && c == b[4 * k := c[4 * k]][4 * k + 1 := c[4 * k + 1]][4 * k + 2 := c[4 * k + 2]][4 * k + 3 := c[4 * k + 3]]
         && c[4 * k] == val % 0x100 && c[4 * k + 1] == val / 0x100 % 0x100 && c[4 * k + 2] == val / 0x1_0000 % 0x100
         && c3 % 0x10 == val / 0x100_0000 % 0x10 && c3 / 0x10 == b3 / 0x10
  }

  lemma SplitAt100(a: nat, b: nat, c: nat)
    requires b < 0x10 && c < 0x100
    ensures var v := a * 0x1000 + b * 0x100 + c;
            v % 0x1000 == b * 0x100 + c && v % 0x100 == c && v / 0x100 == a * 0x10 + b && v / 0x100 % 0x10 == b
  {
  }

  lemma SplitAt10(a: nat, b: nat, c: nat)
    requires b < 0x100 && c < 0x10
    ensures var v := a * 0x1000 + b * 0x10 + c;
            v % 0x1000 == b * 0x10 + c && v % 0x10 == c && v / 0x10 == a * 0x100 + b && v / 0x10 % 0x100 == b
  {
  }

  lemma EvenBytes12(val: nat, high: nat)
    requires high < 0x10
    ensures var v := val % 0x1000 + high * 0x1000;
            && v % 0x100 == val % 0x100 && v / 0x100 % 0x100 % 0x10 == val / 0x100 % 0x10 && v / 0x100 % 0x100 / 0x10 == high
  {
    var a, b, c := val / 0x1000, val / 0x100 % 0x10, val % 0x100;
    assert val == a * 0x1000 + b * 0x100 + c;
    SplitAt100(a, b, c);
    SplitAt100(high, b, c);
  }

  lemma SplitByte(a: nat, c: nat, d: nat)
    requires c < 0x10 && d < 0x10
    ensures var v := a * 0x100 + (c * 0x10 + d); v / 0x100 == a && v % 0x100 == c * 0x10 + d
    ensures (c * 0x10 + d) / 0x10 == c && (c * 0x10 + d) % 0x10 == d
  {
  }

  lemma OddBytes12(val: nat, low: nat)
    requires low < 0x10
    ensures var v := val % 0x1000 * 0x10 + low;
            && v % 0x100 % 0x10 == low && v % 0x100 / 0x10 == val % 0x10 && v / 0x100 % 0x100 == val / 0x10 % 0x100
  {
    var a, b, c := val / 0x1000, val / 0x10 % 0x100, val % 0x10;
    assert val == a * 0x1000 + b * 0x10 + c;
    SplitAt10(a, b, c);
    var v := val % 0x1000 * 0x10 + low;
    assert v == b * 0x100 + (c * 0x10 + low) by { assert val % 0x1000 == b * 0x10 + c; }
    SplitByte(b, c, low);
  }

  lemma Stored12Layout(b: seq<byte>, k: nat, val: nat)
    requires CellFits(Fat12, |b|, k)
    ensures Respelled(Fat12, b, WithCell(Fat12, b, k, val), k, val)
  {
    var i := CellStart(Fat12, k);
    assert i == 3 * (k / 2) + k % 2;
    assert Read16(b, i) / 0x1000 == b[i + 1] as int / 0x10 && Read16(b, i) % 0x10 == b[i] as int % 0x10;
    hide Read16;
    EvenBytes12(val, Read16(b, i) / 0x1000);
    OddBytes12(val, Read16(b, i) % 0x10);
  }

  lemma Bytes32(val: nat, high: nat)
    requires high < 0x10
    ensures var v := val % 0x1000_0000 + high * 0x1000_0000;
            && v % 0x1_0000 == val % 0x1_0000
            && v / 0x1_0000 % 0x1_0000 == val / 0x1_0000 % 0x1000 + high * 0x1000
  {
    var a, b, c := val / 0x1000_0000, val / 0x1_0000 % 0x1000, val % 0x1_0000;
    assert val == a * 0x1000_0000 + b * 0x1_0000 + c;
    assert val % 0x1000_0000 == b * 0x1_0000 + c;
    assert val % 0x1000_0000 + high * 0x1000_0000 == (high * 0x1000 + b) * 0x1_0000 + c;
  }

  lemma Bytes16(v: nat)
    ensures v % 0x1_0000 % 0x100 == v % 0x100 && v % 0x1_0000 / 0x100 % 0x100 == v / 0x100 % 0x100
  {
    var a, b, c := v / 0x1_0000, v / 0x100 % 0x100, v % 0x100;
    assert v == a * 0x1_0000 + b * 0x100 + c;
    assert v % 0x1_0000 == b * 0x100 + c;
  }

  lemma Write32Bytes(b: seq<byte>, i: nat, v: nat)
    requires i + 4 <= |b| && v < 0x1_0000_0000
    ensures Write32(b, i, v) ==
            b[i := v % 0x100][i + 1 := v / 0x100 % 0x100]
             [i + 2 := v / 0x1_0000 % 0x1_0000 % 0x100][i + 3 := v / 0x1_0000 % 0x1_0000 / 0x100 % 0x100]
  {
    Bytes16(v);
  }

  lemma HighBytes32(val: nat, high: nat)
    requires high < 0x10
    ensures var u := val / 0x1_0000 % 0x1000 + high * 0x1000;
            && u % 0x100 == val / 0x1_0000 % 0x100
            && u / 0x100 % 0x100 % 0x10 == val / 0x100_0000 % 0x10 && u / 0x100 % 0x100 / 0x10 == high
  {
    var w := val / 0x1_0000;
    assert w / 0x100 == val / 0x100_0000;
    EvenBytes12(w, high);
  }

  lemma Stored32Layout(b: seq<byte>, k: nat, val: nat)
    requires CellFits(Fat32, |b|, k)
    ensures Respelled(Fat32, b, WithCell(Fat32, b, k, val), k, val)
  {
    var high := Read32(b, 4 * k) / 0x1000_0000;
    assert high == b[4 * k + 3] as int / 0x10;
    hide Read32, Write32;
    var v := val % 0x1000_0000 + high * 0x1000_0000;
    TopBits(val % 0x1000_0000, high);
    Write32Bytes(b, 4 * k, v);
    Bytes32(val, high);
    HighBytes32(val, high);
    Bytes16(v);
    Bytes16(val);
  }

  /** What storing a value makes of the bytes. */
  lemma StoredLayout(kind: Kind, b: seq<byte>, k: nat, val: nat)
    requires CellFits(kind, |b|, k)
    ensures Respelled(kind, b, WithCell(kind, b, k, val), k, val)
  {
    match kind
    case Fat12 => Stored12Layout(b, k, val);
    case Fat16 =>
    case Fat32 => Stored32Layout(b, k, val);
  }

  /** This says all: bytes that are respelled are those that storing the value leaves. */
  lemma RespelledIsStored(kind: Kind, b: seq<byte>, c: seq<byte>, k: nat, val: nat)
    requires CellFits(kind, |b|, k) && Respelled(kind, b, c, k, val)
    ensures c == WithCell(kind, b, k, val)
  {
    hide WithCell;
    StoredLayout(kind, b, k, val);
  }
}
