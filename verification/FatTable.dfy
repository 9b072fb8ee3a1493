/** The table buffer of common/fat.c: the whole table for 12 and 16-bit cells, a 128 KiB window that moves
    over the table for 28-bit cells, with written sectors marked until they go to disk.
 */
module FatTables {
  import opened Machine
  import opened Arithmetic
  import opened FatCells

  const WINDOW: nat := 0x0002_0000
  const UNKNOWN: nat := 0xFFFF_FFFF
  const NO_CELL: nat := 1

  datatype Status = Ok | InconsistentState | NotEnoughSpace

  /** The sector of a byte. */
  function SectorAt(p: nat, sector: nat): nat
    requires sector > 0
  {
    p / sector
  }

  // ----- One flat table out of a disk and a buffer

  /** The table as it would be with the buffer written out in full. */
  ghost function Overlay(disk: seq<byte>, buffer: seq<byte>, offset: nat): (t: seq<byte>)
    ensures |t| == |disk|
  {
    seq(|disk|, p requires 0 <= p < |disk| => if offset <= p < offset + |buffer| then buffer[p - offset] else disk[p])
  }

  /** What writing the marked sectors leaves on disk. */
  ghost function WrittenOut(disk: seq<byte>, buffer: seq<byte>, dirty: seq<bool>, offset: nat, sector: nat): (d: seq<byte>)
    requires sector > 0
    ensures |d| == |disk|
  {
    seq(|disk|, p requires 0 <= p < |disk| =>
      if offset <= p < offset + |buffer| && SectorAt(p - offset, sector) < |dirty| && dirty[SectorAt(p - offset, sector)]
      then buffer[p - offset] else disk[p])
  }

  /** Sectors without a mark are on disk as they are in the buffer. */
  ghost predicate Clean(disk: seq<byte>, buffer: seq<byte>, dirty: seq<bool>, offset: nat, sector: nat)
    requires sector > 0
  {
    forall p: nat | p < |buffer| && offset + p < |disk| && SectorAt(p, sector) < |dirty| && !dirty[SectorAt(p, sector)] ::
      buffer[p] == disk[offset + p]
  }

  lemma CleanAt(disk: seq<byte>, buffer: seq<byte>, dirty: seq<bool>, offset: nat, sector: nat, p: nat)
    requires sector > 0 && Clean(disk, buffer, dirty, offset, sector)
    ensures p < |buffer| && offset + p < |disk| && SectorAt(p, sector) < |dirty| && !dirty[SectorAt(p, sector)] ==>
              buffer[p] == disk[offset + p]
  {
    hide SectorAt;
  }

  lemma NotCleanAt(disk: seq<byte>, buffer: seq<byte>, dirty: seq<bool>, offset: nat, sector: nat) returns (p: nat)
    requires sector > 0 && !Clean(disk, buffer, dirty, offset, sector)
    ensures p < |buffer| && offset + p < |disk| && SectorAt(p, sector) < |dirty| && !dirty[SectorAt(p, sector)]
    ensures buffer[p] != disk[offset + p]
  {
    hide SectorAt;
    p :| p < |buffer| && offset + p < |disk| && SectorAt(p, sector) < |dirty| && !dirty[SectorAt(p, sector)]
         && buffer[p] != disk[offset + p];
  }

  lemma OverlayAt(disk: seq<byte>, buffer: seq<byte>, offset: nat, p: nat)
    requires p < |disk|
    ensures Overlay(disk, buffer, offset)[p] == if offset <= p < offset + |buffer| then buffer[p - offset] else disk[p]
  {
  }

  lemma WrittenAt(disk: seq<byte>, buffer: seq<byte>, dirty: seq<bool>, offset: nat, sector: nat, p: nat, s: nat)
    requires sector > 0 && p < |disk| && (offset <= p ==> s == SectorAt(p - offset, sector))
    ensures WrittenOut(disk, buffer, dirty, offset, sector)[p]
            == if offset <= p < offset + |buffer| && s < |dirty| && dirty[s] then buffer[p - offset] else disk[p]
  {
  }

  /** The marked sectors are enough to make the disk what readers see exactly if the others were on disk. */
  lemma CleanIsWrittenOut(disk: seq<byte>, buffer: seq<byte>, dirty: seq<bool>, offset: nat, sector: nat)
    requires sector > 0 && forall p: nat | p < |buffer| :: SectorAt(p, sector) < |dirty|
    ensures Clean(disk, buffer, dirty, offset, sector) <==>
            WrittenOut(disk, buffer, dirty, offset, sector) == Overlay(disk, buffer, offset)
  {
    hide WrittenOut, Overlay, Clean, SectorAt;
    var w, o := WrittenOut(disk, buffer, dirty, offset, sector), Overlay(disk, buffer, offset);
    if Clean(disk, buffer, dirty, offset, sector) {
      forall p | 0 <= p < |disk|
        ensures w[p] == o[p]
      {
        var q := if offset <= p then p - offset else 0;
        CleanAt(disk, buffer, dirty, offset, sector, q);
        OverlayAt(disk, buffer, offset, p);
        WrittenAt(disk, buffer, dirty, offset, sector, p, SectorAt(q, sector));
      }
    } else {
      var q := NotCleanAt(disk, buffer, dirty, offset, sector);
      OverlayAt(disk, buffer, offset, offset + q);
      WrittenAt(disk, buffer, dirty, offset, sector, offset + q, SectorAt(q, sector));
      assert w[offset + q] != o[offset + q];
    }
  }

  /** The buffer shows through: a word of the table inside the window is the word of the buffer. */
  lemma OverlayWord(kind: Kind, disk: seq<byte>, buffer: seq<byte>, offset: nat, add: nat, k: nat)
    requires CellStart(kind, k) == offset + add && add + CellWidth(kind) <= |buffer| && CellFits(kind, |disk|, k)
    ensures WordValue(kind, buffer, add, k) == Cell(kind, Overlay(disk, buffer, offset), k)
  {
  }

  lemma OverlayWithWord(kind: Kind, disk: seq<byte>, buffer: seq<byte>, offset: nat, add: nat, k: nat, val: nat)
    requires CellStart(kind, k) == offset + add && add + CellWidth(kind) <= |buffer| && CellFits(kind, |disk|, k)
    ensures Overlay(disk, WithWord(kind, buffer, add, k, val), offset)
            == WithCell(kind, Overlay(disk, buffer, offset), k, val)
  {
    var o := Overlay(disk, buffer, offset);
    assert kind.Fat32? ==> Read32(o, offset + add) == Read32(buffer, add);
    assert !kind.Fat32? ==> Read16(o, offset + add) == Read16(buffer, add);
  }

  /** Only the bytes of its word change. */
  lemma WithWordElsewhere(kind: Kind, buffer: seq<byte>, add: nat, k: nat, val: nat)
    requires add + CellWidth(kind) <= |buffer|
    ensures var after := WithWord(kind, buffer, add, k, val);
            forall p | 0 <= p < |buffer| && !(add <= p < add + CellWidth(kind)) :: after[p] == buffer[p]
  {
  }

  // ----- The cells

  ghost function Entries(kind: Kind, flat: seq<byte>, n: nat): (e: seq<nat>)
    requires forall k | 0 <= k < n :: CellFits(kind, |flat|, k)
    ensures |e| == n
  {
    seq(n, k requires 0 <= k < n => Cell(kind, flat, k))
  }

  lemma EntryAt(kind: Kind, flat: seq<byte>, n: nat, k: nat)
    requires forall i | 0 <= i < n :: CellFits(kind, |flat|, i)
    requires k < n
    ensures Entries(kind, flat, n)[k] == Cell(kind, flat, k)
  {
  }

  lemma EntriesWith(kind: Kind, flat: seq<byte>, n: nat, k: nat, val: nat)
    requires forall i | 0 <= i < n :: CellFits(kind, |flat|, i)
    requires k < n
    ensures Entries(kind, WithCell(kind, flat, k, val), n) == Entries(kind, flat, n)[k := Stored(kind, val)]
  {
    hide Cell, WithCell, Stored;
    forall i | 0 <= i < n
      ensures Cell(kind, WithCell(kind, flat, k, val), i)
              == if i == k then Stored(kind, val) else Cell(kind, flat, i)
    {
      if i == k {
        CellReadBack(kind, flat, k, val);
      } else {
        CellElsewhere(kind, flat, k, val, i);
      }
    }
  }

  /** How many of the entries are zero. */
  ghost function Zeros(entries: seq<nat>): (z: nat)
    ensures z <= |entries|
  {
    if entries == [] then 0
    else Zeros(entries[..|entries| - 1]) + if entries[|entries| - 1] == 0 then 1 else 0
  }

  /** The number of free clusters; the first two entries belong to none. */
  ghost function FreeCount(entries: seq<nat>): nat
  {
    if |entries| < 2 then 0 else Zeros(entries[2..])
  }

  lemma {:induction false} ZerosWith(entries: seq<nat>, k: nat, v: nat)
    requires k < |entries|
    ensures Zeros(entries[k := v]) ==
            Zeros(entries) + (if v == 0 then 1 else 0) - if entries[k] == 0 then 1 else 0
    decreases |entries|
  {
    var last := |entries| - 1;
    if k == last {
      assert entries[k := v][..last] == entries[..last];
    } else {
      ZerosWith(entries[..last], k, v);
      assert entries[k := v][..last] == entries[..last][k := v];
    }
  }

  lemma FreeCountBound(entries: seq<nat>)
    ensures FreeCount(entries) <= |entries|
  {
  }

  lemma FreeCountWith(entries: seq<nat>, k: nat, v: nat)
    requires 2 <= k < |entries|
    ensures FreeCount(entries[k := v]) ==
            FreeCount(entries) + (if v == 0 then 1 else 0) - if entries[k] == 0 then 1 else 0
  {
    ZerosWith(entries[2..], k - 2, v);
    assert entries[k := v][2..] == entries[2..][k - 2 := v];
  }

  // ----- The marks of 12-bit cells

  /** set_table_value marks the sector of the word's first byte, and the next one only for a word across the
      first sector boundary of the table. */
  predicate Marks(kind: Kind, add: nat, sector: nat, s: nat)
    requires sector > 0
  {
    s == add / sector || (kind.Fat12? && add == sector - 1 && s == add / sector + 1)
  }

  /** All bytes of the word are in marked sectors. */
  ghost predicate MarksCover(kind: Kind, add: nat, sector: nat)
    requires sector > 0
  {
    forall p | add <= p < add + CellWidth(kind) :: Marks(kind, add, sector, p / sector)
  }

  /** The word has a byte in an unmarked sector, and that byte is another one than before. */
  ghost predicate Missed(kind: Kind, before: seq<byte>, after: seq<byte>, marks: seq<bool>, add: nat, sector: nat)
    requires sector > 0
  {
    && !MarksCover(kind, add, sector)
    && add / sector + 1 < |marks| && !marks[add / sector + 1]
    && add + 1 < |before| && add + 1 < |after| && after[add + 1] != before[add + 1]
  }

  lemma CoveredIsNotMissed(kind: Kind, before: seq<byte>, after: seq<byte>, marks: seq<bool>, add: nat, sector: nat)
    requires sector > 0 && MarksCover(kind, add, sector)
    ensures !Missed(kind, before, after, marks, add, sector)
  {
  }

  predicate SectorSize(n: nat)
  {
    n == 512 || n == 1024 || n == 2048 || n == 4096
  }

  lemma InFours(m: nat, r: nat, c: nat)
    requires r < 4 * c
    ensures (4 * m + r) % 4 == 0 ==> r <= 4 * c - 4
    ensures (4 * m + r) % 2 == 0 ==> r <= 4 * c - 2
  {
  }

  lemma AlignedInSector(add: nat, sector: nat)
    requires SectorSize(sector)
    ensures add % 4 == 0 ==> add % sector <= sector - 4
    ensures add % 2 == 0 ==> add % sector <= sector - 2
  {
    var c := sector / 4;
    assert sector == 4 * c;
    var q, r := add / sector, add % sector;
    assert add == q * sector + r;
    assert q * sector == q * (4 * c) == 4 * (q * c);
    InFours(q * c, r, c);
  }

  /** Exactly the 12-bit words across a later sector boundary are not fully marked; the words of the other
      kinds are aligned. */
  lemma MarksCoverIff(kind: Kind, add: nat, sector: nat)
    requires SectorSize(sector)
    requires kind.Fat16? ==> add % 2 == 0
    requires kind.Fat32? ==> add % 4 == 0
    ensures MarksCover(kind, add, sector) <==>
            !(kind.Fat12? && add % sector == sector - 1 && add != sector - 1)
  {
    match kind
    case Fat12 =>
      NextQuotient(add, sector);
      if add % sector == sector - 1 && add != sector - 1 {
        assert !Marks(kind, add, sector, (add + 1) / sector);
      }
    case Fat16 =>
      NextQuotient(add, sector);
      AlignedInSector(add, sector);
    case Fat32 =>
      AlignedInSector(add, sector);
      var q, r := add / sector, add % sector;
      forall p | add <= p < add + 4
        ensures p / sector == q
      {
        DivUnique(p, sector, q, r + (p - add));
      }
  }

  // ----- Writing runs of marked sectors

  /** One transfer: `size` bytes from position `from` of the buffer to position `to` of the disk. */
  ghost function Transferred(disk: seq<byte>, buffer: seq<byte>, to: nat, from: nat, size: nat): (d: seq<byte>)
    requires to + size <= |disk| && from + size <= |buffer|
    ensures |d| == |disk|
  {
    disk[..to] + buffer[from..from + size] + disk[to + size..]
  }

  lemma TransferredAt(disk: seq<byte>, buffer: seq<byte>, to: nat, from: nat, size: nat, p: nat)
    requires to + size <= |disk| && from + size <= |buffer| && p < |disk|
    ensures Transferred(disk, buffer, to, from, size)[p] == if to <= p < to + size then buffer[from + (p - to)] else disk[p]
  {
  }

  lemma RunAt(disk: seq<byte>, buffer: seq<byte>, dirty: seq<bool>, offset: nat, sector: nat,
              start: nat, end: nat, a: nat, b: nat, p: nat)
    requires sector > 0 && start <= end <= |dirty| && a == start * sector && b == end * sector
    requires a <= b <= |buffer| && offset + b <= |disk| && p < |disk|
    requires forall s | start <= s < end :: dirty[s]
    ensures Transferred(WrittenOut(disk, buffer, dirty[..start], offset, sector), buffer, offset + a, a, b - a)[p]
            == WrittenOut(disk, buffer, dirty[..end], offset, sector)[p]
  {
    hide WrittenOut, Transferred;
    var d := WrittenOut(disk, buffer, dirty[..start], offset, sector);
    TransferredAt(d, buffer, offset + a, a, b - a, p);
    if offset <= p {
      var s := (p - offset) / sector;
      QuotientRange(p - offset, sector, start, end);
      WrittenAt(disk, buffer, dirty[..start], offset, sector, p, s);
      WrittenAt(disk, buffer, dirty[..end], offset, sector, p, s);
    } else {
      WrittenAt(disk, buffer, dirty[..start], offset, sector, p, 0);
      WrittenAt(disk, buffer, dirty[..end], offset, sector, p, 0);
    }
  }

  lemma RunWritten(disk: seq<byte>, buffer: seq<byte>, dirty: seq<bool>, offset: nat, sector: nat,
                   start: nat, end: nat, a: nat, b: nat)
    requires sector > 0 && start <= end <= |dirty| && a == start * sector && b == end * sector
    requires a <= b <= |buffer| && offset + b <= |disk|
    requires forall s | start <= s < end :: dirty[s]
    ensures Transferred(WrittenOut(disk, buffer, dirty[..start], offset, sector), buffer, offset + a, a, b - a)
            == WrittenOut(disk, buffer, dirty[..end], offset, sector)
  {
    var d := WrittenOut(disk, buffer, dirty[..start], offset, sector);
    var t := Transferred(d, buffer, offset + a, a, b - a);
    var w := WrittenOut(disk, buffer, dirty[..end], offset, sector);
    forall p | 0 <= p < |disk|
      ensures t[p] == w[p]
    {
      RunAt(disk, buffer, dirty, offset, sector, start, end, a, b, p);
    }
  }

  lemma GapSkipped(disk: seq<byte>, buffer: seq<byte>, dirty: seq<bool>, offset: nat, sector: nat, i: nat)
    requires sector > 0 && i < |dirty| && !dirty[i]
    ensures WrittenOut(disk, buffer, dirty[..i + 1], offset, sector) == WrittenOut(disk, buffer, dirty[..i], offset, sector)
  {
    hide SectorAt;
    var w, x := WrittenOut(disk, buffer, dirty[..i + 1], offset, sector), WrittenOut(disk, buffer, dirty[..i], offset, sector);
    forall p | 0 <= p < |disk|
      ensures w[p] == x[p]
    {
      var s := SectorAt(if offset <= p then p - offset else 0, sector);
      WrittenAt(disk, buffer, dirty[..i + 1], offset, sector, p, s);
      WrittenAt(disk, buffer, dirty[..i], offset, sector, p, s);
    }
  }

  lemma NothingWritten(disk: seq<byte>, buffer: seq<byte>, dirty: seq<bool>, offset: nat, sector: nat)
    requires sector > 0
    ensures WrittenOut(disk, buffer, dirty[..0], offset, sector) == disk
  {
    hide SectorAt;
    var w := WrittenOut(disk, buffer, dirty[..0], offset, sector);
    forall p | 0 <= p < |disk|
      ensures w[p] == disk[p]
    {
      WrittenAt(disk, buffer, dirty[..0], offset, sector, p, SectorAt(if offset <= p then p - offset else 0, sector));
    }
  }

  lemma WindowInSectors(offset: nat, sector: nat)
    requires SectorSize(sector) && offset % WINDOW == 0
    ensures offset % sector == 0
  {
    var m := offset / WINDOW;
    assert offset == m * WINDOW;
    var c := WINDOW / sector;
    assert c * sector == WINDOW;
    assert offset == m * (c * sector) == (m * c) * sector;
    DivUnique(offset, sector, m * c, 0);
  }

  lemma SectorsOf(size: nat, sector: nat)
    requires SectorSize(sector) && (size == WINDOW || size % sector == 0)
    ensures size / sector * sector == size
  {
    if size == WINDOW {
      WindowInSectors(WINDOW, sector);
    }
  }

  lemma WholeSectors(add: nat, sector: nat, m: nat, n: nat)
    requires sector > 0 && m * sector + add < n * sector
    ensures m * sector + (add / sector + 1) * sector <= n * sector
  {
    var q := add / sector;
    assert add == q * sector + add % sector;
    assert (n - m - q) * sector == n * sector - m * sector - q * sector;
    Multiple(n - m - q, sector);
    Multiple(n - m - q - 1, sector);
    assert (n - m - q - 1) * sector == n * sector - m * sector - (q + 1) * sector;
  }

  lemma AcrossBoundary(add: nat, sector: nat)
    requires SectorSize(sector) && add % sector == sector - 1
    ensures (add + 1) / sector == add / sector + 1 && add / sector != add / sector + 1
  {
    NextQuotient(add, sector);
  }

  lemma CleanAcross(disk: seq<byte>, buffer: seq<byte>, after: seq<byte>, marks: seq<bool>, marks2: seq<bool>,
                    offset: nat, add: nat, sector: nat)
    requires sector > 0 && SectorAt(add + 1, sector) == SectorAt(add, sector) + 1 && add != sector - 1
    requires |marks| == |marks2| && forall s | 0 <= s < |marks| :: marks2[s] == (marks[s] || s == SectorAt(add, sector))
    requires |after| == |buffer| && add + 2 <= |buffer| && offset + add + 2 <= |disk| && SectorAt(add, sector) + 1 < |marks|
    requires forall p | 0 <= p < |buffer| && p != add && p != add + 1 :: after[p] == buffer[p]
    requires Clean(disk, buffer, marks, offset, sector)
    ensures Clean(disk, after, marks2, offset, sector) <==>
            marks[SectorAt(add, sector) + 1] || after[add + 1] == buffer[add + 1]
  {
    hide SectorAt;
    var next := SectorAt(add, sector) + 1;
    assert marks2[next] == marks[next];
    if !marks[next] {
      assert buffer[add + 1] == disk[offset + (add + 1)];
      if after[add + 1] != buffer[add + 1] {
        assert !marks2[SectorAt(add + 1, sector)] && after[add + 1] != disk[offset + (add + 1)];
      }
    }
  }

  lemma CleanIfCovered(kind: Kind, disk: seq<byte>, buffer: seq<byte>, marks: seq<bool>, marks2: seq<bool>,
                       offset: nat, add: nat, k: nat, val: nat, sector: nat)
    requires sector > 0 && add + CellWidth(kind) <= |buffer| && |marks| == |marks2|
    requires forall s | 0 <= s < |marks| :: marks2[s] == (marks[s] || Marks(kind, add, sector, s))
    requires Clean(disk, buffer, marks, offset, sector) && MarksCover(kind, add, sector)
    ensures Clean(disk, WithWord(kind, buffer, add, k, val), marks2, offset, sector)
  {
    hide WithWord;
    WithWordElsewhere(kind, buffer, add, k, val);
  }

  /** A word that is written leaves the unmarked sectors as they are on disk exactly if no byte of it is missed. */
  lemma CleanWithWord(kind: Kind, disk: seq<byte>, buffer: seq<byte>, marks: seq<bool>, marks2: seq<bool>,
                      offset: nat, add: nat, k: nat, val: nat, sector: nat)
    requires SectorSize(sector) && add + CellWidth(kind) <= |buffer| && |marks| == |marks2|
    requires offset + add + CellWidth(kind) <= |disk| && forall p: nat | p < |buffer| :: SectorAt(p, sector) < |marks|
    requires (kind.Fat16? ==> add % 2 == 0) && (kind.Fat32? ==> add % 4 == 0)
    requires forall s | 0 <= s < |marks| :: marks2[s] == (marks[s] || Marks(kind, add, sector, s))
    requires Clean(disk, buffer, marks, offset, sector)
    ensures var after := WithWord(kind, buffer, add, k, val);
            Clean(disk, after, marks2, offset, sector) <==> !Missed(kind, buffer, after, marks, add, sector)
  {
    hide WithWord, MarksCover;
    WithWordElsewhere(kind, buffer, add, k, val);
    var after := WithWord(kind, buffer, add, k, val);
    if MarksCover(kind, add, sector) {
      CleanIfCovered(kind, disk, buffer, marks, marks2, offset, add, k, val, sector);
    } else {
      MarksCoverIff(kind, add, sector);
      AcrossBoundary(add, sector);
      CleanAcross(disk, buffer, after, marks, marks2, offset, add, sector);
    }
  }

  /** The number of free clusters is unknown or right. */
  ghost predicate CountIsRight(free: nat, cells: seq<nat>)
  {
    free == UNKNOWN || free == FreeCount(cells)
  }

  lemma LoadedWindow(disk: seq<byte>, buffer: seq<byte>, dirty: seq<bool>, offset: nat, sector: nat)
    requires sector > 0
    requires forall p | 0 <= p < |buffer| && offset + p < |disk| :: buffer[p] == disk[offset + p]
    ensures Overlay(disk, buffer, offset) == disk
    ensures Clean(disk, buffer, dirty, offset, sector)
  {
  }

  lemma WrittenOutShowsSame(disk: seq<byte>, buffer: seq<byte>, dirty: seq<bool>, offset: nat, sector: nat)
    requires sector > 0
    ensures Overlay(WrittenOut(disk, buffer, dirty, offset, sector), buffer, offset) == Overlay(disk, buffer, offset)
  {
  }

  /** A disk that shows everything the buffer holds is clean. */
  lemma NowClean(disk: seq<byte>, buffer: seq<byte>, dirty: seq<bool>, offset: nat, sector: nat)
    requires sector > 0
    ensures Clean(Overlay(disk, buffer, offset), buffer, dirty, offset, sector)
  {
  }

  class Table {
    const kind: Kind
    const clusters: nat
    const sector: nat
    const copies: nat          // one or two copies of the table are on disk
    const buffer: array<byte>
    const dirty: array<bool>
    const disk1: array<byte>
    const disk2: array<byte>
    var offset: nat
    var infoFree: nat          // FAT32: the number of free clusters, if it is known
    var infoNext: nat

    ghost predicate Geometry()
    {
      && SectorSize(sector) && (copies == 1 || copies == 2)
      && buffer != disk1 && buffer != disk2 && disk1 != disk2
      && disk1.Length == disk2.Length && disk1.Length % sector == 0
      && (forall k | 0 <= k < clusters + 2 :: CellFits(kind, disk1.Length, k))
      && buffer.Length == (if kind.Fat32? then WINDOW else disk1.Length)
      && dirty.Length * sector == buffer.Length
      && clusters + 2 <= FIRST_END
      && (kind.Fat12? ==> clusters < 4085)
      && (kind.Fat16? ==> clusters < 65525)
    }

    /** Sectors without a mark are on disk. */
    ghost predicate OnDisk()
      requires Geometry()
      reads this, buffer, dirty, disk1
    {
      Clean(disk1[..], buffer[..], dirty[..], offset, sector)
    }

    /** The marks stay within the table. */
    ghost predicate MarksInTable()
      requires Geometry()
      reads this, dirty
    {
      forall s | 0 <= s < dirty.Length && dirty[s] :: offset + (s + 1) * sector <= disk1.Length
    }

    ghost predicate Valid()
      reads this, buffer, dirty, disk1
    {
      && Geometry() && MarksInTable()
      && offset % WINDOW == 0 && (offset < disk1.Length || offset == 0) && (!kind.Fat32? ==> offset == 0)
      && (kind.Fat32? ==> OnDisk())
    }

    /** The table as every reader sees it. */
    ghost function Flat(): seq<byte>
      reads this, buffer, disk1
    {
      Overlay(disk1[..], buffer[..], offset)
    }

    // fat_io_read of the first `size` bytes of the window.
    method ReadBlocks(size: nat)
      requires buffer != disk1 && size <= buffer.Length && offset + size <= disk1.Length
      modifies buffer
      ensures forall p | 0 <= p < size :: buffer[p] == disk1[offset + p]
    {
      for p := 0 to size
        invariant forall q | 0 <= q < p :: buffer[q] == disk1[offset + q]
      {
        buffer[p] := disk1[offset + p];
      }
    }

    /** A table as it is mounted: the whole table, or its first window, is read. */
    constructor (k: Kind, n: nat, bytesPerSector: nat, tables: nat, first: array<byte>, second: array<byte>)
      requires SectorSize(bytesPerSector) && (tables == 1 || tables == 2) && first != second
      requires first.Length == second.Length && first.Length % bytesPerSector == 0
      requires forall c | 0 <= c < n + 2 :: CellFits(k, first.Length, c)
      requires n + 2 <= FIRST_END && (k.Fat12? ==> n < 4085) && (k.Fat16? ==> n < 65525)
      ensures Valid() && OnDisk() && Flat() == first[..] && infoFree == UNKNOWN
      ensures kind == k && clusters == n && disk1 == first && disk2 == second && copies == tables
      ensures fresh(buffer) && fresh(dirty) && sector == bytesPerSector
      ensures forall s | 0 <= s < dirty.Length :: !dirty[s]
    {
      hide Overlay, Clean, CellFits;
      kind, clusters, sector, copies, disk1, disk2 := k, n, bytesPerSector, tables, first, second;
      offset, infoFree, infoNext := 0, UNKNOWN, UNKNOWN;
      var size := if k.Fat32? then WINDOW else first.Length;
      buffer := new byte[size](_ => 0);
      dirty := new bool[size / bytesPerSector](_ => false);
      new;
      SectorsOf(size, bytesPerSector);
      var shown := if size <= first.Length then size else first.Length;
      ReadBlocks(shown);
      LoadedWindow(disk1[..], buffer[..], dirty[..], 0, sector);
    }

    ghost function Cells(): (e: seq<nat>)
      requires Geometry()
      reads this, buffer, disk1
      ensures |e| == clusters + 2
    {
      Entries(kind, Flat(), clusters + 2)
    }

    // fat_io_write of consecutive sectors of the buffer.
    method Transfer(disk: array<byte>, to: nat, from: nat, size: nat)
      requires disk != buffer && to + size <= disk.Length && from + size <= buffer.Length
      modifies disk
      ensures disk[..] == Transferred(old(disk[..]), buffer[..], to, from, size)
    {
      for p := 0 to size
        invariant forall q | 0 <= q < disk.Length ::
                    disk[q] == if to <= q < to + p then buffer[from + (q - to)] else old(disk[q])
      {
        disk[to + p] := buffer[from + p];
      }
    }

    lemma SectorPositive()
      requires Geometry()
      ensures sector > 0
    {
    }

    lemma RunFits(start: nat, end: nat)
      requires Geometry() && MarksInTable() && start < end <= dirty.Length && dirty[end - 1]
      ensures start * sector <= end * sector <= buffer.Length && offset + end * sector <= disk1.Length
    {
      Multiple(end - start, sector);
      assert (end - start) * sector == end * sector - start * sector;
      Multiple(end - dirty.Length, sector);
      assert end * sector - dirty.Length * sector == (end - dirty.Length) * sector;
      assert offset + (end - 1 + 1) * sector <= disk1.Length;
    }

    // One of the two passes of write_table: a transfer for each run of marked sectors.
    method WriteRuns(disk: array<byte>)
      requires Geometry() && MarksInTable() && (disk == disk1 || disk == disk2)
      modifies disk
      ensures disk[..] == WrittenOut(old(disk[..]), buffer[..], dirty[..], offset, sector)
    {
      hide WrittenOut, Transferred, SectorSize;
      ghost var before := disk[..];
      SectorPositive();
      NothingWritten(before, buffer[..], dirty[..], offset, sector);
      var i := 0;
      while i < dirty.Length
        invariant 0 <= i <= dirty.Length && disk.Length == |before|
        invariant disk[..] == WrittenOut(before, buffer[..], dirty[..][..i], offset, sector)
      {
        if !dirty[i] {
          GapSkipped(before, buffer[..], dirty[..], offset, sector, i);
          i := i + 1;
          continue;
        }
        var start := i;
        i := i + 1;
        while i < dirty.Length && dirty[i]
          invariant start < i <= dirty.Length
          invariant forall s | start <= s < i :: dirty[s]
        {
          i := i + 1;
        }
        RunFits(start, i);
        var size := i * sector - start * sector;
        RunWritten(before, buffer[..], dirty[..], offset, sector, start, i, start * sector, i * sector);
        Transfer(disk, offset + start * sector, start * sector, size);
      }
      assert dirty[..][..i] == dirty[..];
    }

    method ClearMarks()
      modifies dirty
      ensures forall s | 0 <= s < dirty.Length :: !dirty[s]
    {
      for s := 0 to dirty.Length
        invariant forall q | 0 <= q < s :: !dirty[q]
      {
        dirty[s] := false;
      }
    }

    lemma AllSectors()
      requires Geometry()
      ensures sector > 0 && forall p: nat | p < buffer.Length :: SectorAt(p, sector) < dirty.Length
    {
      forall p: nat | p < buffer.Length
        ensures SectorAt(p, sector) < dirty.Length
      {
        QuotientRange(p, sector, 0, dirty.Length);
      }
    }

    /** write_table: the marked sectors go to disk, in both copies if there are two; what readers see stays. */
    method WriteTable()
      requires Valid()
      modifies dirty, disk1, disk2
      ensures Valid() && Flat() == old(Flat())
      ensures forall s | 0 <= s < dirty.Length :: !dirty[s]
      ensures disk1[..] == WrittenOut(old(disk1[..]), buffer[..], old(dirty[..]), offset, sector)
      ensures disk1[..] == Flat() <==> old(OnDisk())
      ensures old(OnDisk()) ==> OnDisk()
      ensures copies == 2 && old(disk1[..]) == old(disk2[..]) ==> disk2[..] == disk1[..]
      ensures copies == 1 ==> disk2[..] == old(disk2[..])
    {
      hide WrittenOut, Overlay, Clean, CellFits, SectorSize;
      ghost var was := old(disk1[..]);
      SectorPositive();
      AllSectors();
      WriteRuns(disk1);
      if copies >= 2 {
        WriteRuns(disk2);
      }
      WrittenOutShowsSame(was, buffer[..], dirty[..], offset, sector);
      CleanIsWrittenOut(was, buffer[..], dirty[..], offset, sector);
      ghost var marks := dirty[..];
      ClearMarks();
      if Clean(was, buffer[..], marks, offset, sector) {
        NowClean(was, buffer[..], dirty[..], offset, sector);
      }
    }

    lemma WindowStart(at: nat)
      ensures (at - at % WINDOW) % WINDOW == 0
    {
    }

    method FillZero()
      modifies buffer
    {
      for p := 0 to buffer.Length {
        buffer[p] := 0;
      }
    }

    /** read_table_buffer: moves the window to the one with byte `at` of the table, writing the old one out
        first.  Readers see the same table. */
    method ReadTableBuffer(at: nat) returns (add: nat)
      requires Valid() && kind.Fat32? && at < disk1.Length
      modifies this`offset, buffer, dirty, disk1, disk2
      ensures Valid() && Flat() == old(Flat())
      ensures offset + add == at && add < WINDOW
      ensures copies == 2 && old(disk1[..]) == old(disk2[..]) ==> disk2[..] == disk1[..]
      ensures offset == old(offset) ==> buffer[..] == old(buffer[..])
    {
      hide WrittenOut, Overlay, Clean, CellFits, SectorSize;
      add := at % WINDOW;
      var window := at - add;
      assert window % WINDOW == 0 by { WindowStart(at); }
      if offset == window {
        return;
      }
      WriteTable();
      SectorPositive();
      ghost var flat := Flat();
      offset := window;
      var size := WINDOW;
      if offset + size > disk1.Length {
        FillZero();
        size := disk1.Length - offset;
      }
      ReadBlocks(size);
      LoadedWindow(disk1[..], buffer[..], dirty[..], offset, sector);
    }

    lemma WordInWindow(add: nat)
      requires (offset + add) % 4 == 0 && offset % WINDOW == 0 && add < WINDOW
      ensures add % 4 == 0 && add + 4 <= WINDOW
    {
      assert offset == WINDOW * (offset / WINDOW);
    }

    /** get_table_value: the cell's value, or 1 for a cell that the table does not have. */
    method Get(k: nat) returns (v: nat)
      requires Valid()
      modifies this`offset, buffer, dirty, disk1, disk2
      ensures Valid() && Flat() == old(Flat())
      ensures v == if k < clusters + 2 then Cells()[k] else NO_CELL
      ensures k < clusters + 2 ==> Spells(kind, Flat(), k, v)
      ensures old(OnDisk()) ==> OnDisk()
      ensures copies == 2 && old(disk1[..]) == old(disk2[..]) ==> disk2[..] == disk1[..]
    {
      hide Overlay, Clean, Cell, WordValue, SectorSize, Spells;
      if k >= clusters + 2 {
        return NO_CELL;
      }
      var add := CellStart(kind, k);
      assert CellFits(kind, disk1.Length, k);
      if kind.Fat32? {
        add := ReadTableBuffer(add);
        WordInWindow(add);
      }
      OverlayWord(kind, disk1[..], buffer[..], offset, add, k);
      v := WordValue(kind, buffer[..], add, k);
      CellLayout(kind, Flat(), k, v);
    }

    // The bookkeeping of FAT32 in set_table_value.
    method UpdateInfo(k: nat, old_: nat, val: nat)
      modifies this`infoFree, this`infoNext
      ensures old(infoFree) == UNKNOWN ==> infoFree == UNKNOWN
      ensures infoNext == if old(infoFree) != UNKNOWN && val != 0 then k else old(infoNext)
      ensures old(infoFree) + 1 < UNKNOWN && (old_ == 0 && val != 0 ==> old(infoFree) > 0) ==>
                infoFree == old(infoFree) + (if val == 0 then 1 else 0) - if old_ == 0 then 1 else 0
    {
      if infoFree != UNKNOWN {
        if old_ == 0 {
          if val != 0 {
            infoFree := (infoFree + UNKNOWN) % (UNKNOWN + 1);
          }
        } else {
          if val == 0 {
            infoFree := (infoFree + 1) % (UNKNOWN + 1);
          }
        }
        if val != 0 {
          infoNext := k;
        }
      }
    }

    // A word of the window is the cell of the flat table.
    lemma WordIsCell(add: nat, k: nat)
      requires Valid() && kind.Fat32? && k < clusters + 2
      requires CellStart(kind, k) == offset + add && add % 4 == 0 && add + 4 <= WINDOW
      ensures add + CellWidth(kind) <= buffer.Length && WordValue(kind, buffer[..], add, k) == Cells()[k]
    {
      hide Overlay, Clean, Cell, WithCell, WordValue, WithWord, SectorSize, Stored, FreeCount, Marks;
      assert CellFits(kind, disk1.Length, k);
      EntryAt(kind, Flat(), clusters + 2, k);
      OverlayWord(kind, disk1[..], buffer[..], offset, add, k);
    }

    // The window moves to the cell, and its word is read.
    method Find32(k: nat) returns (add: nat, word: nat)
      requires Valid() && kind.Fat32? && k < clusters + 2
      modifies this`offset, buffer, dirty, disk1, disk2
      ensures Valid() && Flat() == old(Flat())
      ensures CellStart(kind, k) == offset + add && add + CellWidth(kind) <= buffer.Length
      ensures word == Cells()[k]
      ensures copies == 2 && old(disk1[..]) == old(disk2[..]) ==> disk2[..] == disk1[..]
    {
      hide Overlay, Clean, Cell, WithCell, WordValue, WithWord, SectorSize, Stored, Entries, FreeCount, Marks, CountIsRight;
      assert CellFits(kind, disk1.Length, k);
      add := ReadTableBuffer(CellStart(kind, k));
      WordInWindow(add);
      WordIsCell(add, k);
      word := WordValue(kind, buffer[..], add, k);
    }

    lemma CountStays(cells: seq<nat>, k: nat, v: nat, known: nat, now: nat)
      requires 2 <= k < |cells| <= FIRST_END && CountIsRight(known, cells)
      requires known == UNKNOWN ==> now == UNKNOWN
      requires known + 1 < UNKNOWN && (cells[k] == 0 && v != 0 ==> known > 0) ==>
                 now == known + (if v == 0 then 1 else 0) - if cells[k] == 0 then 1 else 0
      ensures CountIsRight(now, cells[k := v])
    {
      FreeCountWith(cells, k, v);
      FreeCountBound(cells);
    }

    method Locate32(k: nat, val: nat) returns (add: nat)
      requires Valid() && kind.Fat32? && k < clusters + 2
      modifies this, buffer, dirty, disk1, disk2
      ensures Valid() && Flat() == old(Flat())
      ensures CellStart(kind, k) == offset + add && add + CellWidth(kind) <= buffer.Length
      ensures 2 <= k && (val == 0 <==> Stored(kind, val) == 0) ==>
                CountIsRight(old(infoFree), Cells()) ==> CountIsRight(infoFree, Cells()[k := Stored(kind, val)])
      ensures infoNext == if old(infoFree) != UNKNOWN && val != 0 then k else old(infoNext)
      ensures copies == 2 && old(disk1[..]) == old(disk2[..]) ==> disk2[..] == disk1[..]
    {
      hide Overlay, Clean, Cell, WithCell, WordValue, WithWord, SectorSize, Stored, Entries, FreeCount, Marks, CountIsRight;
      hide CellFits;
      var old_;
      add, old_ := Find32(k);
      ghost var known := infoFree;
      UpdateInfo(k, old_, val);
      if k >= 2 && (val == 0 <==> Stored(kind, val) == 0) && CountIsRight(known, Cells()) {
        CountStays(Cells(), k, Stored(kind, val), known, infoFree);
      }
    }

    // The first half of set_table_value: the place of the cell in the buffer, and the bookkeeping.
    method Locate(k: nat, val: nat) returns (add: nat)
      requires Valid() && k < clusters + 2
      modifies this, buffer, dirty, disk1, disk2
      ensures Valid() && Flat() == old(Flat())
      ensures CellStart(kind, k) == offset + add && add + CellWidth(kind) <= buffer.Length
      ensures kind.Fat32? && 2 <= k && (val == 0 <==> Stored(kind, val) == 0) ==>
                CountIsRight(old(infoFree), Cells()) ==> CountIsRight(infoFree, Cells()[k := Stored(kind, val)])
      ensures infoNext == if kind.Fat32? && old(infoFree) != UNKNOWN && val != 0 then k else old(infoNext)
      ensures !kind.Fat32? ==> infoFree == old(infoFree)
      ensures !kind.Fat32? ==> buffer[..] == old(buffer[..]) && dirty[..] == old(dirty[..]) && disk1[..] == old(disk1[..])
      ensures copies == 2 && old(disk1[..]) == old(disk2[..]) ==> disk2[..] == disk1[..]
    {
      hide Overlay, Clean, Cell, WithCell, WordValue, WithWord, SectorSize, Stored, Entries, FreeCount;
      if kind.Fat32? {
        add := Locate32(k, val);
      } else {
        add := CellStart(kind, k);
        assert CellFits(kind, disk1.Length, k);
      }
    }

    lemma SectorIsOne()
      requires Geometry()
      ensures SectorSize(sector)
    {
    }

    lemma WordSector(add: nat)
      requires Geometry() && offset % WINDOW == 0 && add + 2 <= buffer.Length && offset + add + 2 <= disk1.Length
      ensures add / sector < dirty.Length && offset + (add / sector + 1) * sector <= disk1.Length
      ensures add == sector - 1 ==> add / sector + 1 < dirty.Length && offset + (add / sector + 2) * sector <= disk1.Length
    {
      QuotientRange(add, sector, 0, dirty.Length);
      QuotientRange(add + 1, sector, 0, dirty.Length);
      NextQuotient(add, sector);
      WindowInSectors(offset, sector);
      var m, n := offset / sector, disk1.Length / sector;
      assert offset == m * sector && disk1.Length == n * sector;
      WholeSectors(add, sector, m, n);
      WholeSectors(add + 1, sector, m, n);
    }

    method MarkWord(add: nat)
      requires Geometry() && MarksInTable() && offset % WINDOW == 0
      requires add + CellWidth(kind) <= buffer.Length && offset + add + 2 <= disk1.Length
      modifies dirty
      ensures MarksInTable()
      ensures sector > 0 && forall s | 0 <= s < dirty.Length :: dirty[s] == (old(dirty[s]) || Marks(kind, add, sector, s))
    {
      hide SectorSize, CellFits;
      SectorPositive();
      WordSector(add);
      if kind.Fat12? && add == sector - 1 {
        dirty[add / sector + 1] := true;
      }
      dirty[add / sector] := true;
    }

    // W_LE16 and W_LE32.
    method Put16(add: nat, w: nat)
      requires add + 2 <= buffer.Length
      modifies buffer
      ensures buffer[..] == Write16(old(buffer[..]), add, w)
    {
      buffer[add] := w % 0x100;
      buffer[add + 1] := w / 0x100 % 0x100;
      assert buffer[..] == old(buffer[..])[add := w % 0x100][add + 1 := w / 0x100 % 0x100];
    }

    method Put32(add: nat, w: nat)
      requires add + 4 <= buffer.Length
      modifies buffer
      ensures buffer[..] == Write32(old(buffer[..]), add, w)
    {
      Put16(add, w % 0x1_0000);
      Put16(add + 2, w / 0x1_0000 % 0x1_0000);
    }

    method StoreWord(add: nat, k: nat, val: nat)
      requires add + CellWidth(kind) <= buffer.Length
      modifies buffer
      ensures buffer[..] == WithWord(kind, old(buffer[..]), add, k, val)
    {
      hide Read16, Read32, Write16, Write32;
      match kind {
        case Fat12 =>
          var w := Read16(buffer[..], add);
          if k % 2 == 1 {
            Put16(add, val % 0x1000 * 0x10 + w % 0x10);
          } else {
            Put16(add, val % 0x1000 + w / 0x1000 * 0x1000);
          }
        case Fat16 =>
          Put16(add, val);
        case Fat32 =>
          var w := Read32(buffer[..], add);
          Put32(add, val % 0x1000_0000 + w / 0x1000_0000 * 0x1000_0000);
      }
    }

    lemma AlignedWord(add: nat, k: nat)
      requires Geometry() && offset % WINDOW == 0 && CellStart(kind, k) == offset + add
      ensures kind.Fat16? ==> add % 2 == 0
      ensures kind.Fat32? ==> add % 4 == 0
    {
      assert offset == WINDOW * (offset / WINDOW);
    }

    // The marks and the bytes of set_table_value.
    method WriteWord(add: nat, k: nat, val: nat)
      requires Valid() && k < clusters + 2 && CellStart(kind, k) == offset + add
      requires add + CellWidth(kind) <= buffer.Length
      modifies buffer, dirty
      ensures Valid() && Flat() == WithCell(kind, old(Flat()), k, val)
      ensures old(OnDisk()) ==>
                (OnDisk() <==> !Missed(kind, old(buffer[..]), buffer[..], old(dirty[..]), add, sector))
      ensures !kind.Fat12? && old(OnDisk()) ==> OnDisk()
      ensures forall s | 0 <= s < dirty.Length :: dirty[s] == (old(dirty[s]) || Marks(kind, add, sector, s))
    {
      hide Overlay, Clean, Cell, WithCell, SectorSize, MarksCover, Stored, WithWord, Marks, Missed;
      assert CellFits(kind, disk1.Length, k);
      ghost var was, marks := buffer[..], dirty[..];
      SectorPositive();
      AlignedWord(add, k);
      MarkWord(add);
      StoreWord(add, k, val);
      OverlayWithWord(kind, disk1[..], was, offset, add, k, val);
      SectorIsOne();
      AllSectors();
      MarksCoverIff(kind, add, sector);
      if Clean(disk1[..], was, marks, offset, sector) {
        CleanWithWord(kind, disk1[..], was, marks, dirty[..], offset, add, k, val, sector);
      }
      if !kind.Fat12? {
        CoveredIsNotMissed(kind, was, buffer[..], marks, add, sector);
      }
    }

    /** set_table_value: the cell holds the value and no other cell changes; a known number of free clusters
        stays right.  A cell that the table does not have is refused. */
    method Set(k: nat, val: nat) returns (status: Status)
      requires Valid()
      modifies this, buffer, dirty, disk1, disk2
      ensures Valid()
      ensures status == if k < clusters + 2 then Ok else InconsistentState
      ensures k >= clusters + 2 ==> Flat() == old(Flat()) && infoFree == old(infoFree)
      ensures k < clusters + 2 ==>
                && Flat() == WithCell(kind, old(Flat()), k, val)
                && Respelled(kind, old(Flat()), Flat(), k, val)
                && Cells() == old(Cells())[k := Stored(kind, val)]
      ensures kind.Fat32? && 2 <= k && (val == 0 <==> Stored(kind, val) == 0) ==>
                CountIsRight(old(infoFree), old(Cells())) ==> CountIsRight(infoFree, Cells())
      ensures infoNext == if k < clusters + 2 && kind.Fat32? && old(infoFree) != UNKNOWN && val != 0 then k else old(infoNext)
      ensures !kind.Fat32? ==> infoFree == old(infoFree)
      ensures kind.Fat16? && old(OnDisk()) ==> OnDisk()
      ensures kind.Fat12? && old(OnDisk()) && k < clusters + 2 ==>
                (OnDisk() <==> !Missed(kind, old(buffer[..]), buffer[..], old(dirty[..]), CellStart(kind, k), sector))
      ensures !kind.Fat32? && k < clusters + 2 ==>
                && disk1[..] == old(disk1[..])
                && forall s | 0 <= s < dirty.Length :: dirty[s] == (old(dirty[s]) || Marks(kind, CellStart(kind, k), sector, s))
      ensures copies == 2 && old(disk1[..]) == old(disk2[..]) ==> disk2[..] == disk1[..]
    {
      hide Overlay, Clean, Cell, WithCell, WordValue, WithWord, MarksCover, Stored, Entries, FreeCount, Marks, Missed;
      hide Respelled;
      if k >= clusters + 2 {
        return InconsistentState;
      }
      ghost var flat := Flat();
      EntriesWith(kind, flat, clusters + 2, k, val);
      var add := Locate(k, val);
      WriteWord(add, k, val);
      StoredLayout(kind, flat, k, val);
      return Ok;
    }
  }

  lemma EndMarkStored()
    ensures Stored(Fat12, END_MARK) == END_MARK
  {
  }

  lemma EndMarkBytes(flat: seq<byte>)
    requires |flat| == 1536 && flat[1023] == flat[1024] == 0
    ensures WithCell(Fat12, flat, 682, END_MARK)[1024] == 0x0F
  {
  }

  /** Such a word: the end mark for cluster 682 of a table with sectors of 512 bytes.  Its upper half, byte 1024, is
      not on disk after the marked sectors have been written. */
  method UnwrittenByte() returns (t: Table)
    ensures t.Valid() && t.kind.Fat12? && t.sector == 512 && t.clusters == 1000
    ensures t.disk1.Length == 1536 && t.Cells()[682] == END_MARK && t.Flat()[1024] == 0x0F && t.disk1[1024] == 0
  {
    hide WrittenOut, Overlay, Clean, Missed, MarksCover, Cell, Stored, Entries, WordValue, WithCell;
    var first := new byte[1536](_ => 0);
    var second := new byte[1536](_ => 0);
    t := new Table(Fat12, 1000, 512, 2, first, second);
    ghost var flat := t.Flat();
    EndMarkStored();
    var status := t.Set(682, END_MARK);
    EndMarkBytes(flat);
    ghost var d, b, marks := t.disk1[..], t.buffer[..], t.dirty[..];
    WrittenAt(d, b, marks, 0, 512, 1024, 2);
    t.WriteTable();
  }
}
