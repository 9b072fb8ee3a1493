/** The physical memory manager of kernel/base/mm.c: a bitmap of page frames and a hint from the top. */
module PhysicalMemory {
  import opened Machine
  import opened Arithmetic

  // ----- Bytes of the bitmap

  /** `1u << b`. */
  function Mask(b: nat): bv8
    requires b < 8
  {
    if b == 0 then 0x01 else if b == 1 then 0x02 else if b == 2 then 0x04 else if b == 3 then 0x08
    else if b == 4 then 0x10 else if b == 5 then 0x20 else if b == 6 then 0x40 else 0x80
  }

  predicate Bit(v: bv8, b: nat)
    requires b < 8
  {
    v & Mask(b) != 0
  }

  lemma SetBit(v: bv8, b: nat, c: nat)
    requires b < 8 && c < 8
    ensures Bit(v | Mask(b), c) == (b == c || Bit(v, c))
  {
  }

  lemma ClearBit(v: bv8, b: nat, c: nat)
    requires b < 8 && c < 8
    ensures Bit(v & !Mask(b), c) == (b != c && Bit(v, c))
  {
  }

  lemma FullByte(v: bv8)
    ensures v == 0xFF <==> forall b | 0 <= b < 8 :: Bit(v, b)
  {
    if forall b | 0 <= b < 8 :: Bit(v, b) {
      assert Bit(v, 0) && Bit(v, 1) && Bit(v, 2) && Bit(v, 3) && Bit(v, 4) && Bit(v, 5) && Bit(v, 6) && Bit(v, 7);
    }
  }

  // ----- Bitmaps as sets of frames

  ghost predicate IsTaken(bytes: seq<bv8>, f: int)
  {
    0 <= f < 8 * |bytes| && Bit(bytes[f / 8], f % 8)
  }

  ghost function TakenIn(bytes: seq<bv8>): set<nat>
  {
    set f: nat | f < 8 * |bytes| && IsTaken(bytes, f)
  }

  ghost function Range(base: nat, count: nat): set<nat>
    decreases count
  {
    if count == 0 then {} else Range(base, count - 1) + {base + count - 1}
  }

  lemma {:induction false} RangeIs(base: nat, count: nat)
    ensures |Range(base, count)| == count
    ensures forall f :: f in Range(base, count) <==> base <= f < base + count
  {
    if count > 0 {
      RangeIs(base, count - 1);
    }
  }

  lemma SetFrame(bytes: seq<bv8>, f: nat)
    requires f < 8 * |bytes|
    ensures TakenIn(bytes[f / 8 := bytes[f / 8] | Mask(f % 8)]) == TakenIn(bytes) + {f}
  {
    hide Bit, Mask;
    var after := bytes[f / 8 := bytes[f / 8] | Mask(f % 8)];
    forall g
      ensures IsTaken(after, g) == (g == f || IsTaken(bytes, g))
    {
      if 0 <= g < 8 * |bytes| {
        SetBit(bytes[f / 8], f % 8, g % 8);
      }
    }
  }

  lemma ClearFrame(bytes: seq<bv8>, f: nat)
    requires f < 8 * |bytes|
    ensures TakenIn(bytes[f / 8 := bytes[f / 8] & !Mask(f % 8)]) == TakenIn(bytes) - {f}
  {
    hide Bit, Mask;
    var after := bytes[f / 8 := bytes[f / 8] & !Mask(f % 8)];
    forall g
      ensures IsTaken(after, g) == (g != f && IsTaken(bytes, g))
    {
      if 0 <= g < 8 * |bytes| {
        ClearBit(bytes[f / 8], f % 8, g % 8);
      }
    }
  }

  // ----- Aligned blocks

  datatype MemoryType = Normal | Addr36 | Addr32 | Addr28 | Addr24 | Addr20 | Kernel | Unknown

  /** The frames of a type lie below this one; every frame is normal. */
  function TypeLimit(t: MemoryType, frames: nat): nat
  {
    var limit := match t
      case Normal => frames
      case Addr36 => 0x1000000
      case Addr32 => 0x100000
      case Addr28 => 0x10000
      case Addr24 => 0x1000
      case Addr20 => 0x100
      case Kernel => 0x10000
      case Unknown => 0;
    if limit < frames then limit else frames
  }

  /** mm_get_count. */
  function CountOf(order: int): nat
  {
    if order == 0 then 0x0001 else if order == 1 then 0x0002 else if order == 2 then 0x0004
    else if order == 3 then 0x0008 else if order == 4 then 0x0010 else if order == 5 then 0x0020
    else if order == 6 then 0x0040 else if order == 7 then 0x0080 else if order == 8 then 0x0100
    else if order == 9 then 0x0200 else if order == 10 then 0x0400 else 0
  }

  lemma HalfDivides(n: nat, c: nat)
    requires c > 0 && n % (2 * c) == 0
    ensures n % c == 0
  {
    var q := n / (2 * c);
    assert n == 2 * c * q == c * (2 * q);
    var k := n / c - 2 * q;
    assert n % c == n - c * (n / c) == -(k * c);
    Multiple(k, c);
    Multiple(-k, c);
  }

  lemma {:induction false} CountDivides(order: int, frames: nat)
    requires CountOf(order) > 0 && frames % 1024 == 0
    ensures frames % CountOf(order) == 0
    decreases 10 - order
  {
    if order < 10 {
      CountDivides(order + 1, frames);
      HalfDivides(frames, CountOf(order));
    }
  }

  lemma AlignedFits(base: nat, count: nat, frames: nat)
    requires count > 0 && base % count == 0 && frames % count == 0 && base < frames
    ensures base + count <= frames
  {
    var q, p := base / count, frames / count;
    assert base == q * count && frames == p * count;
    assert frames - base == (p - q) * count;
    Multiple(p - q, count);
  }

  /** A free block of `count` frames at `base`, away from frame 0. */
  ghost predicate FreeBlock(taken: set<nat>, base: nat, count: nat)
    requires count > 0
  {
    base > 0 && base % count == 0 && Range(base, count) !! taken
  }

  /** No frame below the limit is free, but for frame 0 that nobody gets. */
  ghost predicate Full(taken: set<nat>, limit: nat)
  {
    forall f | 0 < f < limit :: f in taken
  }

  /** Where there is no free block of one frame, there is no free frame. */
  lemma NoBlockIsFull(taken: set<nat>, limit: nat)
    requires forall f | 0 < f < limit :: !FreeBlock(taken, f, CountOf(0))
    ensures Full(taken, limit)
  {
    forall f | 0 < f < limit
      ensures f in taken
    {
      RangeIs(f, 1);
      assert Range(f, 1) == {f};
      assert !FreeBlock(taken, f, CountOf(0));
    }
  }

  /** The free frames below n. */
  ghost function FreeFrames(taken: set<nat>, n: nat): (s: set<nat>)
    ensures forall f :: f in s <==> 0 <= f < n && f !in taken
  {
    set f: nat | f < n && f !in taken
  }

  lemma CountFrame(taken: set<nat>, n: nat)
    ensures |FreeFrames(taken, n + 1)| == |FreeFrames(taken, n)| + if n in taken then 0 else 1
  {
    assert FreeFrames(taken, n + 1) == FreeFrames(taken, n) + if n in taken then {} else {n};
  }

  lemma LimitIsWhole(t: MemoryType, bytes: nat)
    ensures TypeLimit(t, bytes * 8) % 8 == 0
  {
  }

  lemma NotTaken(bytes: seq<bv8>, f: nat)
    requires f / 8 >= |bytes|
    ensures f !in TakenIn(bytes)
  {
  }

  ghost predicate HintHolds(bytes: seq<bv8>, used: nat)
  {
    && used <= |bytes|
    && forall i | |bytes| - used <= i < |bytes| :: bytes[i] == 0xFF
  }

  /** The hint in terms of frames: those above it are taken. */
  lemma HintAsFrames(bytes: seq<bv8>, used: nat)
    ensures HintHolds(bytes, used) <==>
            used <= |bytes| && forall f | 8 * (|bytes| - used) <= f < 8 * |bytes| :: f in TakenIn(bytes)
  {
    hide Bit;
    if used <= |bytes| {
      if HintHolds(bytes, used) {
        forall f | 8 * (|bytes| - used) <= f < 8 * |bytes|
          ensures f in TakenIn(bytes)
        {
          FullByte(bytes[f / 8]);
        }
      } else {
        var i :| |bytes| - used <= i < |bytes| && bytes[i] != 0xFF;
        FullByte(bytes[i]);
        var b :| 0 <= b < 8 && !Bit(bytes[i], b);
        var f: nat := 8 * i + b;
        assert f / 8 == i && f % 8 == b;
        assert f !in TakenIn(bytes);
      }
    }
  }

  /** No free block starts in the region where every frame is taken. */
  lemma BlocksAbove(taken: set<nat>, top: nat, t: MemoryType, frames: nat, count: nat)
    requires count > 0 && top <= frames
    requires forall f | top <= f < frames :: f in taken
    ensures forall g | TypeLimit(t, top) <= g < TypeLimit(t, frames) :: !FreeBlock(taken, g, count)
  {
    forall g | TypeLimit(t, top) <= g < TypeLimit(t, frames)
      ensures !FreeBlock(taken, g, count)
    {
      RangeIs(g, count);
      assert g in Range(g, count);
    }
  }

  lemma OnMultiple(q: nat, count: nat)
    requires count > 0
    ensures q * count % count == 0
  {
    var n := q * count;
    var k := n / count - q;
    assert k * count == n / count * count - q * count == -(n % count);
    Multiple(k, count);
    Multiple(-k, count);
  }

  lemma NoMultipleBetween(m: nat, count: nat)
    requires count > 0 && m % count == 0
    ensures forall g | m < g < m + count :: g % count != 0
  {
    forall g | m < g < m + count
      ensures g % count != 0
    {
      if g % count == 0 {
        var k := g / count - m / count;
        assert k * count == g / count * count - m / count * count == g - m;
        Multiple(k, count);
      }
    }
  }

  lemma AlignDown(taken: set<nat>, top: nat, count: nat)
    requires count > 0 && top > 0
    ensures var m := (top - 1) / count * count;
            0 <= m < top && m % count == 0 && forall g | m < g < top :: !FreeBlock(taken, g, count)
  {
    var m := (top - 1) / count * count;
    assert top - 1 == m + (top - 1) % count;
    OnMultiple((top - 1) / count, count);
    NoMultipleBetween(m, count);
  }

  lemma StepDown(taken: set<nat>, m: nat, count: nat)
    requires count > 0 && m > 0 && m % count == 0
    ensures m >= count && (m - count) % count == 0
    ensures forall g | m - count < g < m :: !FreeBlock(taken, g, count)
  {
    var q := m / count;
    assert m == q * count;
    assert m - count == (q - 1) * count;
    Multiple(q, count);
    OnMultiple(q - 1, count);
    NoMultipleBetween(m - count, count);
  }

  lemma TakenIff(bytes: seq<bv8>, f: nat)
    requires f < 8 * |bytes|
    ensures f in TakenIn(bytes) <==> Bit(bytes[f / 8], f % 8)
  {
  }

  lemma OneMore(s: set<nat>, r: set<nat>, x: nat)
    ensures s + r + {x} == s + (r + {x})
    ensures s - r - {x} == s - (r + {x})
  {
  }

  lemma EmptyRange(base: nat)
    ensures Range(base, 0) == {}
  {
  }

  lemma NextRange(base: nat, count: nat)
    ensures Range(base, count + 1) == Range(base, count) + {base + count}
  {
  }

  class Mm {
    var ready: bool
    var used: nat              // mm_bitmap_used: so many bytes at the top are full
    const bitmap: array<bv8>   // one bit a frame, set when the frame is taken

    ghost predicate Valid()
      reads this, bitmap
    {
      && bitmap.Length % 128 == 0
      && HintHolds(bitmap[..], used)
    }

    ghost function Frames(): nat
    {
      8 * bitmap.Length
    }

    ghost function Taken(): set<nat>
      reads bitmap
    {
      TakenIn(bitmap[..])
    }

    constructor (bytes: nat)
      requires bytes % 128 == 0
      ensures Valid() && bitmap.Length == bytes && ready && fresh(bitmap)
      ensures Taken() == Range(0, Frames())
    {
      ready, used := true, 0;
      bitmap := new bv8[bytes](_ => 0xFF);
      new;
      RangeIs(0, Frames());
      forall f
        ensures IsTaken(bitmap[..], f) == (0 <= f < Frames())
      {
        if 0 <= f < Frames() {
          FullByte(bitmap[..][f / 8]);
        }
      }
    }

    method ClearBitAt(i: nat, b: nat, ghost f: nat)
      requires f < Frames() && b < 8 && f == 8 * i + b
      modifies bitmap
      ensures Taken() == old(Taken()) - {f}
    {
      hide Bit, Mask, TakenIn;
      ClearFrame(bitmap[..], f);
      bitmap[i] := bitmap[i] & !Mask(b);
      assert bitmap[..] == old(bitmap[..])[i := old(bitmap[i]) & !Mask(b)];
    }

    method SetBitAt(i: nat, b: nat, ghost f: nat)
      requires f < Frames() && b < 8 && f == 8 * i + b
      modifies bitmap
      ensures Taken() == old(Taken()) + {f}
    {
      hide Bit, Mask, TakenIn;
      SetFrame(bitmap[..], f);
      bitmap[i] := bitmap[i] | Mask(b);
      assert bitmap[..] == old(bitmap[..])[i := old(bitmap[i]) | Mask(b)];
    }

    // mm_bitmap_clear.
    method BitmapClear(frame: nat, count: nat)
      requires frame + count <= Frames()
      modifies bitmap
      ensures Taken() == old(Taken()) - Range(frame, count)
    {
      hide Bit, Mask, Mm.Taken, Range;
      EmptyRange(frame);
      var b, i := frame % 8, frame / 8;
      for k := 0 to count
        invariant 8 * i + b == frame + k && 0 <= b < 8
        invariant Taken() == old(Taken()) - Range(frame, k)
      {
        ClearBitAt(i, b, frame + k);
        NextRange(frame, k);
        OneMore(old(Taken()), Range(frame, k), frame + k);
        b := if b == 7 then 0 else b + 1;
        if b == 0 {
          i := i + 1;
        }
      }
    }

    // mm_bitmap_set.
    method BitmapSet(frame: nat, count: nat)
      requires frame + count <= Frames()
      modifies bitmap
      ensures Taken() == old(Taken()) + Range(frame, count)
    {
      hide Bit, Mask, Mm.Taken, Range;
      EmptyRange(frame);
      var b, i := frame % 8, frame / 8;
      for k := 0 to count
        invariant 8 * i + b == frame + k && 0 <= b < 8
        invariant Taken() == old(Taken()) + Range(frame, k)
      {
        SetBitAt(i, b, frame + k);
        NextRange(frame, k);
        OneMore(old(Taken()), Range(frame, k), frame + k);
        b := if b == 7 then 0 else b + 1;
        if b == 0 {
          i := i + 1;
        }
      }
    }

    // mm_bitmap_test.
    method BitmapTest(frame: nat, count: nat) returns (taken: bool)
      requires frame + count <= Frames()
      ensures taken == !(Range(frame, count) !! Taken())
    {
      hide Bit, Mask, Range;
      RangeIs(frame, count);
      var b, i := frame % 8, frame / 8;
      for k := 0 to count
        invariant 8 * i + b == frame + k && 0 <= b < 8
        invariant forall f | frame <= f < frame + k :: f !in Taken()
      {
        assert IsTaken(bitmap[..], frame + k) == Bit(bitmap[i], b);
        if Bit(bitmap[i], b) {
          assert frame + k in Range(frame, count) && frame + k in Taken();
          return true;
        }
        b := if b == 7 then 0 else b + 1;
        if b == 0 {
          i := i + 1;
        }
      }
      return false;
    }

    // The loop that both allocators start with: full bytes at the top are skipped, now and from now on.
    method SkipFull() returns (frame: nat)
      requires Valid()
      modifies `used
      ensures Valid() && frame <= Frames() && frame % 8 == 0
      ensures forall f | frame <= f < Frames() :: f in Taken()
    {
      hide Bit;
      var size := bitmap.Length - used;
      frame := size * 8;
      while size != 0
        invariant Valid() && size == bitmap.Length - used && frame == size * 8
      {
        size := size - 1;
        if bitmap[size] != 0xFF {
          break;
        }
        used := used + 1;
        frame := frame - 8;
      }
      forall f | frame <= f < Frames()
        ensures f in Taken()
      {
        assert bitmap[f / 8] == bitmap[..][f / 8] == 0xFF;
        FullByte(bitmap[f / 8]);
      }
    }

    /** mm_alloc_page: the highest free frame except frame 0, as a scan of the whole bitmap would find it. */
    method AllocPage() returns (page: nat)
      requires Valid()
      modifies this`used, bitmap
      ensures Valid()
      ensures page == 0 ==> Taken() == old(Taken()) && (ready ==> Full(Taken(), Frames()))
      ensures page != 0 ==>
                var f := page / PAGE;
                && ready && page == f * PAGE && 0 < f < Frames()
                && f !in old(Taken()) && (forall g | f < g < Frames() :: g in old(Taken()))
                && Taken() == old(Taken()) + {f}
    {
      hide Bit, Mask, TakenIn, HintHolds;
      if !ready {
        return 0;
      }
      ghost var before := Taken();
      var frame: nat := SkipFull();
      if frame != 0 {
        frame := frame - 1;
      }
      while frame != 0
        invariant Valid() && (frame < Frames() || frame == 0)
        invariant Taken() == before
        invariant forall f | frame < f < Frames() :: f in Taken()
      {
        var b, i := frame % 8, frame / 8;
        TakenIff(bitmap[..], frame);
        if !Bit(bitmap[i], b) {
          assert forall g | frame < g < Frames() :: g in before;
          HintAsFrames(bitmap[..], used);
          SetBitAt(i, b, frame);
          HintAsFrames(bitmap[..], used);
          page := frame * PAGE;
          assert page / PAGE == frame;
          return;
        }
        frame := frame - 1;
      }
      return 0;
    }

    /** mm_alloc_pages: the highest free aligned block of 2^order frames that starts below the limit of its
        type, or nothing.  A block of any order fits below the end of the bitmap. */
    method AllocPages(t: MemoryType, order: int) returns (page: nat)
      requires Valid()
      modifies this`used, bitmap
      ensures Valid()
      ensures page == 0 ==> Taken() == old(Taken())
      ensures page == 0 && ready && CountOf(order) > 0 ==>
                forall f | 0 < f < TypeLimit(t, Frames()) :: !FreeBlock(Taken(), f, CountOf(order))
      ensures page != 0 ==>
                var f := page / PAGE;
                && ready && CountOf(order) > 0 && page == f * PAGE
                && 0 < f < TypeLimit(t, Frames()) && f + CountOf(order) <= Frames()
                && FreeBlock(old(Taken()), f, CountOf(order))
                && (forall g | f < g < TypeLimit(t, Frames()) :: !FreeBlock(old(Taken()), g, CountOf(order)))
                && Taken() == old(Taken()) + Range(f, CountOf(order))
    {
      hide Bit, Mask, TakenIn, Range, CountOf, HintHolds;
      var count := CountOf(order);
      if !ready || count == 0 {
        return 0;
      }
      ghost var before := Taken();
      var frame: nat := SkipFull();
      assert Taken() == before;
      BlocksAbove(before, frame, t, Frames(), count);
      frame := TypeLimit(t, frame);
      CountDivides(order, Frames());
      if frame != 0 {
        AlignDown(before, frame, count);
        frame := (frame - 1) / count * count;
      }
      while frame != 0
        invariant Valid() && Taken() == before
        invariant frame % count == 0 && (frame == 0 || frame < TypeLimit(t, Frames()))
        invariant forall g | frame < g < TypeLimit(t, Frames()) :: !FreeBlock(before, g, count)
      {
        AlignedFits(frame, count, Frames());
        var taken := BitmapTest(frame, count);
        if !taken {
          HintAsFrames(bitmap[..], used);
          RangeIs(frame, count);
          BitmapSet(frame, count);
          HintAsFrames(bitmap[..], used);
          page := frame * PAGE;
          assert page / PAGE == frame;
          return;
        }
        StepDown(before, frame, count);
        frame := frame - count;
      }
      return 0;
    }

    /** mm_free_page: the frame is free afterwards, if there is such a frame. */
    method FreePage(addr: nat)
      requires Valid()
      modifies this`used, bitmap
      ensures Valid()
      ensures Taken() == if ready && addr / PAGE != 0 then old(Taken()) - {addr / PAGE} else old(Taken())
    {
      hide Bit, Mask, TakenIn, HintHolds;
      var frame := addr / PAGE;
      if !ready || frame == 0 {
        return;
      }
      var i := frame / 8;
      if i >= bitmap.Length {
        NotTaken(bitmap[..], frame);
        return;
      }
      HintAsFrames(bitmap[..], used);
      ClearBitAt(i, frame % 8, frame);
      i := bitmap.Length - i - 1;
      if used > i {
        used := i;
      }
      HintAsFrames(bitmap[..], used);
    }

    /** mm_free_pages: an aligned block is free afterwards, if it lies within the bitmap. */
    method FreePages(addr: nat, order: int)
      requires Valid()
      modifies this`used, bitmap
      ensures Valid()
      ensures var f, count := addr / PAGE, CountOf(order);
              Taken() == if ready && count > 0 && f != 0 && f % count == 0 && f + count <= Frames()
                         then old(Taken()) - Range(f, count) else old(Taken())
    {
      hide Bit, Mask, TakenIn, Range, CountOf, HintHolds;
      var frame := addr / PAGE;
      var count := CountOf(order);
      if !ready || count == 0 {
        return;
      }
      if frame == 0 || frame % count != 0 {
        return;
      }
      var i := (frame + (count - 1)) / 8;
      if i >= bitmap.Length {
        return;
      }
      HintAsFrames(bitmap[..], used);
      RangeIs(frame, count);
      BitmapClear(frame, count);
      i := bitmap.Length - i - 1;
      if used > i {
        used := i;
      }
      HintAsFrames(bitmap[..], used);
    }

    /** mm_available_pages: how many frames below the limit of the type are free. */
    method AvailablePages(t: MemoryType) returns (pages: nat)
      requires Valid()
      ensures pages == if ready then |FreeFrames(Taken(), TypeLimit(t, Frames()))| else 0
    {
      hide Bit, TakenIn;
      if !ready {
        return 0;
      }
      var frames := TypeLimit(t, bitmap.Length * 8);
      LimitIsWhole(t, bitmap.Length);
      pages := 0;
      for i := 0 to frames / 8
        invariant pages == |FreeFrames(Taken(), 8 * i)|
      {
        var val := bitmap[i];
        for b := 0 to 8
          invariant pages == |FreeFrames(Taken(), 8 * i + b)|
        {
          TakenIff(bitmap[..], 8 * i + b);
          CountFrame(Taken(), 8 * i + b);
          if !Bit(val, b) {
            pages := pages + 1;
          }
        }
      }
    }
  }

  /** Taking a block takes exactly its frames from what is available, and freeing it gives them back. */
  lemma AvailableAfterTake(taken: set<nat>, frames: nat, base: nat, count: nat)
    requires base + count <= frames && Range(base, count) !! taken
    ensures |FreeFrames(taken + Range(base, count), frames)| == |FreeFrames(taken, frames)| - count
    ensures taken + Range(base, count) - Range(base, count) == taken
  {
    RangeIs(base, count);
    assert FreeFrames(taken, frames) == FreeFrames(taken + Range(base, count), frames) + Range(base, count);
  }

  // ----- Orders, types and bits

  /** A block of order k has 2 to the power of k frames, for the orders 0 to 10. */
  lemma OrdersDouble(order: int)
    ensures CountOf(0) == 1 && (0 <= order < 10 ==> CountOf(order + 1) == 2 * CountOf(order))
    ensures CountOf(order) > 0 <==> 0 <= order <= 10
  {
  }

  /** The types of memory by the width of their addresses; the kernel's is that of 28 bits. */
  lemma TypesByWidth(frames: nat)
    requires frames * PAGE >= 0x10_0000_0000
    ensures TypeLimit(Normal, frames) == frames && TypeLimit(Unknown, frames) == 0
    ensures TypeLimit(Addr36, frames) * PAGE == 0x10_0000_0000 && TypeLimit(Addr32, frames) * PAGE == 0x1_0000_0000
    ensures TypeLimit(Addr28, frames) * PAGE == 0x1000_0000 == TypeLimit(Kernel, frames) * PAGE
    ensures TypeLimit(Addr24, frames) * PAGE == 0x100_0000 && TypeLimit(Addr20, frames) * PAGE == 0x10_0000
  {
  }

  /** The bit of a frame in its byte is the one of that weight. */
  lemma BitIsShifted(v: bv8, b: nat)
    requires b < 8
    ensures Bit(v, b) <==> (v >> b) & 1 == 1
  {
  }
}
