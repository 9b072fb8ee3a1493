/** The bit array of kernel/lib/bitarray.c: a window of bytes that is read or written one bit at a time
    and is replaced through a callback when it is used up.
 */
module BitArrays {
  import opened Machine
  import opened Sequences
  import opened BitStrings

  const FAILED: int := -1

  /** What a reader with these pending bits, this window and this supply is going to see. */
  ghost function Pending(count: nat, pending: nat, window: seq<byte>, supply: seq<bit>): seq<bit>
  {
    BitList(pending, count) + Bits(window) + supply
  }

  lemma PendingBit(count: nat, pending: nat, window: seq<byte>, supply: seq<bit>)
    requires count > 0 && pending < Pow2(count)
    ensures pending / 2 < Pow2(count - 1)
    ensures Pending(count, pending, window, supply) == [pending % 2] + Pending(count - 1, pending / 2, window, supply)
  {
  }

  lemma PendingByte(pending: nat, window: seq<byte>, supply: seq<bit>)
    requires window != []
    ensures window[0] < Pow2(CHAR_BIT)
    ensures Pending(0, pending, window, supply) == Pending(CHAR_BIT, window[0], window[1..], supply)
  {
    ByteFits(window[0]);
    assert BitList(pending, 0) == [];
    ConcatAssociative(ByteBits(window[0]), Bits(window[1..]), supply);
  }

  lemma NoBits(v: nat)
    ensures BitList(v, 0) == []
  {
  }

  lemma StoredByte(stored: seq<byte>, x: byte)
    ensures Bits(stored) + BitList(x, CHAR_BIT) == Bits(stored + [x]) + BitList(0, 0)
  {
    BitsAppend(stored, [x]);
    BitsSingle(x);
  }

  ghost predicate Distinct(windows: seq<array<byte>>)
  {
    forall i, j | 0 <= i < j < |windows| :: windows[i] != windows[j]
  }

  /** The bits supplied by the windows up to the first refusal. */
  ghost function Supply(refills: seq<array<byte>>): seq<bit>
    reads refills
  {
    if refills == [] || refills[0].Length == 0 then [] else Bits(refills[0][..]) + Supply(refills[1..])
  }

  /** The room in the windows up to the first refusal. */
  ghost function Capacity(refills: seq<array<byte>>): nat
  {
    if refills == [] || refills[0].Length == 0 then 0 else refills[0].Length + Capacity(refills[1..])
  }

  class BitArray {
    // The window: `size` bytes of `data` starting at `pos`.
    var data: array<byte>
    var pos: nat
    var size: nat

    // state[0] and state[1]: how many bits are pending, and the bits themselves.
    var count: nat
    var pending: nat

    var written: nat

    // What the callback is going to supply, one window a call.  A callback that fails or that supplies
    // no room is an empty window, or the end of the list.
    var refills: seq<array<byte>>

    // What the callback has received: the bytes of the windows that were handed back to it.
    var flushed: seq<byte>

    ghost predicate Valid()
      reads this
    {
      && pos + size <= data.Length
      && pending < Pow2(count)
    }

    // The bits a reader is still going to see.
    ghost function Stream(): seq<bit>
      requires Valid()
      reads this, data, refills
    {
      Pending(count, pending, data[pos..pos + size], Supply(refills))
    }

    // The bytes a writer has stored so far, over all windows.
    function Output(): seq<byte>
      requires Valid()
      reads this, data
    {
      flushed + data[..pos]
    }

    // The bits a writer has shoved so far, whether they were stored or are still pending.
    ghost function Shoved(): seq<bit>
      requires Valid()
      reads this, data
    {
      Bits(Output()) + BitList(pending, count)
    }

    // How many more bytes a writer can store before a refill is refused.
    ghost function Room(): nat
      reads this, refills
    {
      size + Capacity(refills)
    }

    // What a writer relies on: whole bytes never stay pending, and no window is written twice.
    ghost predicate WriterValid()
      reads this, data, refills
    {
      && Valid()
      && count < 8
      && written == |Output()|
      && Distinct([data] + refills)
    }

    constructor (window: array<byte>, windowSize: nat, supply: seq<array<byte>>)
      requires windowSize <= window.Length
      ensures Valid() && fresh(this)
      ensures data == window && refills == supply && Output() == []
      ensures Stream() == Bits(window[..windowSize]) + Supply(supply)
      ensures count == 0 && Shoved() == [] && Room() == windowSize + Capacity(supply)
      ensures Distinct([window] + supply) ==> WriterValid()
    {
      data, pos, size := window, 0, windowSize;
      count, pending, written := 0, 0, 0;
      refills, flushed := supply, [];
    }

    method Clear()
      requires Valid()
      modifies this
      ensures Valid()
      ensures size == count == pending == 0
      ensures data == old(data) && pos == old(pos) && written == old(written)
      ensures refills == old(refills) && flushed == old(flushed)
    {
      size, count, pending := 0, 0, 0;
    }

    /** The callback.  It is only called with an empty window; the bytes stored in the old window are
        its to keep. */
    method Callback() returns (ok: bool)
      requires Valid() && size == 0
      modifies this
      ensures Valid()
      ensures count == old(count) && pending == old(pending) && written == old(written)
      ensures Output() == old(Output())
      ensures ok == (old(refills) != [] && old(refills)[0].Length > 0)
      ensures ok ==> data == old(refills)[0] && pos == 0 && size == data.Length && refills == old(refills)[1..]
      ensures !ok ==> size == 0 && data == old(data) && refills == if old(refills) == [] then [] else old(refills)[1..]
    {
      if refills == [] || refills[0].Length == 0 {
        if refills != [] {
          refills := refills[1..];
        }
        return false;
      }
      flushed := flushed + data[..pos];
      data, pos, size := refills[0], 0, refills[0].Length;
      refills := refills[1..];
      return true;
    }

    // The window in use and those to come are among the given ones.
    ghost predicate SuppliedFrom(window: array<byte>, supply: seq<array<byte>>)
      reads this
    {
      && (data == window || data in supply)
      && forall i | 0 <= i < |refills| :: refills[i] in supply
    }

    /** Refills an exhausted window, as both directions do. */
    method Refill() returns (ok: bool)
      requires Valid() && size == 0 && count == 0
      modifies this
      ensures Valid() && count == 0
      ensures ok ==> size > 0 && Stream() == old(Stream())
      ensures !ok ==> old(Stream()) == []
      ensures SuppliedFrom(old(data), old(refills))
    {
      NoBits(pending);
      NoBits(0);
      hide BitList;
      Clear();
      ok := Callback();
      if ok {
        assert data[pos..pos + size] == data[..];
      }
    }

    /** One byte of the window becomes the pending bits. */
    method LoadByte()
      requires Valid() && count == 0 && size > 0
      modifies this
      ensures Valid() && Stream() == old(Stream()) && count == CHAR_BIT
      ensures data == old(data) && refills == old(refills) && size == old(size) - 1
    {
      hide BitList, Pow2;
      PendingByte(pending, data[pos..pos + size], Supply(refills));
      var x := data[pos];
      assert data[pos..pos + size][1..] == data[pos + 1..pos + size];
      count, pending := CHAR_BIT, x;
      pos, size := pos + 1, size - 1;
    }

    method TakeBit() returns (b: bit)
      requires Valid() && count > 0
      modifies this`count, this`pending
      ensures Valid() && count == old(count) - 1
      ensures old(Stream()) == [b] + Stream()
    {
      PendingBit(count, pending, data[pos..pos + size], Supply(refills));
      b := pending % 2;
      count, pending := count - 1, pending / 2;
    }

    /** The rounds that the reading loops of bitarray_fetch and huffman_fetch spend on one bit: refill the
        window, load a byte, take the bit. */
    method ReadBit() returns (r: int)
      requires Valid()
      modifies this
      ensures Valid() && SuppliedFrom(old(data), old(refills))
      ensures r == FAILED || r == 0 || r == 1
      ensures r == FAILED ==> old(Stream()) == []
      ensures r != FAILED ==> old(Stream()) == [r] + Stream()
    {
      hide Stream;
      if count == 0 {
        if size == 0 {
          var ok := Refill();
          if !ok {
            return FAILED;
          }
        }
        LoadByte();
      }
      r := TakeBit();
    }

    /** bitarray_fetch: the next `bits` bits of the stream as a number, low bit first, over any refills. */
    method Fetch(bits: nat) returns (r: int)
      requires Valid() && bits <= 32
      modifies this
      ensures Valid() && SuppliedFrom(old(data), old(refills))
      ensures |old(Stream())| < bits ==> r == FAILED
      ensures |old(Stream())| >= bits ==>
                r == FromBits(old(Stream())[..bits]) % 0x8000_0000 && Stream() == old(Stream())[bits..]
    {
      hide Stream, FromBits, Pow2, ShiftBit;
      FromBitsNil();
      var i := 0;
      var ret: nat := 0;
      ghost var seen: seq<bit> := [];
      ghost var all := Stream();

      while i < bits
        invariant Valid() && i <= bits && |seen| == i
        invariant SuppliedFrom(old(data), old(refills))
        invariant seen + Stream() == all
        invariant ret == FromBits(seen)
      {
        var b := ReadBit();
        if b < 0 {
          return FAILED;
        }
        FromBitsSnoc(seen, b);
        seen := seen + [b];
        ret := ret + ShiftBit(b, i);
        i := i + 1;
      }
      assert seen == all[..bits];
      return ret % 0x8000_0000;
    }

    /** The pending bits of a whole byte go into the window. */
    method StoreByte()
      requires Valid() && count == CHAR_BIT && size > 0 && written == |Output()|
      modifies this, data
      ensures Valid() && count == 0 && Shoved() == old(Shoved())
      ensures written == |Output()| == old(written) + 1
      ensures data == old(data) && refills == old(refills) && size == old(size) - 1
    {
      ByteFits(pending);
      StoredByte(Output(), pending);
      ghost var before := Output();
      var x: byte := pending;
      data[pos] := x;
      pos, size, written := pos + 1, size - 1, written + 1;
      assert data[..pos] == old(data[..pos]) + [x];
      assert Output() == before + [x];
      count, pending := 0, 0;
    }

    /** A full byte is pending but the window is used up: the callback supplies the next window. */
    method MakeRoom() returns (ok: bool)
      requires Valid() && count == CHAR_BIT && size == 0
      requires written == |Output()| && Distinct([data] + refills)
      modifies this
      ensures Valid() && written == |Output()| && Distinct([data] + refills)
      ensures SuppliedFrom(old(data), old(refills))
      ensures ok == (old(Room()) > 0)
      ensures ok ==> size > 0 && count == CHAR_BIT && Shoved() == old(Shoved()) && Room() == old(Room())
      ensures !ok ==> count == 0
    {
      var t := pending;
      Clear();
      ok := Callback();
      assert forall i | 0 <= i < |refills| :: refills[i] in old(refills);
      if ok {
        assert ([data] + refills) == old([data] + refills)[1..];
        assert Distinct(old([data] + refills)[1..]);
        count, pending := CHAR_BIT, t;
      }
    }

    method PushBit(b: bit)
      requires Valid()
      modifies this`count, this`pending
      ensures Valid() && count == old(count) + 1
      ensures Shoved() == old(Shoved()) + [b]
    {
      BitListPush(pending, count, b);
      pending := pending + ShiftBit(b, count);
      count := count + 1;
    }

    /** One round of bitarray_shove: a bit, and the byte it may complete. */
    method ShoveBit(b: bit) returns (ok: bool)
      requires WriterValid()
      modifies this, data, refills
      ensures WriterValid() && SuppliedFrom(old(data), old(refills))
      ensures ok == ((old(count) + 1) / 8 <= old(Room()))
      ensures ok ==> Shoved() == old(Shoved()) + [b]
      ensures ok ==> Room() == old(Room()) - (old(count) + 1) / 8 && count == (old(count) + 1) % 8
    {
      PushBit(b);
      if count < CHAR_BIT {
        return true;
      }
      if size == 0 {
        var refilled := MakeRoom();
        if !refilled {
          return false;
        }
      }
      StoreByte();
      return true;
    }

    /** bitarray_shove: appends the low `bits` bits of val.  It fails exactly when a whole byte finds no room. */
    method Shove(bits: nat, val: nat) returns (ok: bool)
      requires WriterValid()
      modifies this, data, refills
      ensures WriterValid() && SuppliedFrom(old(data), old(refills))
      ensures ok == ((old(count) + bits) / 8 <= old(Room()))
      ensures ok ==> Shoved() == old(Shoved()) + BitList(val, bits)
      ensures ok ==> Room() == old(Room()) - (old(count) + bits) / 8 && count == (old(count) + bits) % 8
    {
      hide Shoved, Room;
      var i := 0;
      var v: nat := val;

      while i < bits
        invariant WriterValid() && i <= bits && SuppliedFrom(old(data), old(refills))
        invariant Shoved() + BitList(v, bits - i) == old(Shoved()) + BitList(val, bits)
        invariant Room() == old(Room()) - (old(count) + i) / 8 && count == (old(count) + i) % 8
      {
        ghost var before := Shoved();
        assert BitList(v, bits - i) == [v % 2] + BitList(v / 2, bits - i - 1);
        var stored := ShoveBit(v % 2);
        if !stored {
          return false;
        }
        v, i := v / 2, i + 1;
      }
      return true;
    }

    lemma NothingPending()
      requires Valid() && count == 0
      ensures Shoved() == Bits(Output())
    {
      assert BitList(pending, 0) == [];
    }

    /** bitarray_written: pads the last byte with zero bits and tells how many bytes were stored. */
    method Written() returns (ok: bool, stored: nat)
      requires WriterValid()
      modifies this, data, refills
      ensures WriterValid() && SuppliedFrom(old(data), old(refills)) && stored == |Output()|
      ensures ok == (old(count) == 0 || old(Room()) > 0)
      ensures ok ==> Bits(Output()) == old(Shoved()) + BitList(0, (8 - old(count)) % 8)
    {
      hide Shoved, Room, BitList;
      var bits := if count > 0 then CHAR_BIT - count else 0;
      ok := Shove(bits, 0);
      stored := written;
      if ok {
        NothingPending();
      }
    }
  }
}
