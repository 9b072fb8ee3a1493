/** Bit sequences, as bit streams and code words see them.

    A byte is an integer in 0..255 and a bit is 0 or 1.  The shifts and masks of the C code appear as
    division, remainder and multiplication by powers of two.
 */
module BitStrings {
  import opened Machine
  import opened Sequences
  import opened Arithmetic

  type bit = x: int | 0 <= x < 2

  function Pow2(n: nat): (p: nat)
    ensures p >= 1
  {
    if n == 0 then 1 else 2 * Pow2(n - 1)
  }

  /** `k << n`. */
  function Shift(k: int, n: nat): int
  {
    if n == 0 then k else 2 * Shift(k, n - 1)
  }

  lemma {:induction false} ShiftSum(a: int, b: int, n: nat)
    ensures Shift(a + b, n) == Shift(a, n) + Shift(b, n)
    ensures Shift(a - b, n) == Shift(a, n) - Shift(b, n)
  {
    if n > 0 {
      ShiftSum(a, b, n - 1);
    }
  }

  lemma {:induction false} ShiftOne(n: nat)
    ensures Shift(1, n) == Pow2(n) && Shift(0, n) == 0
  {
    if n > 0 {
      ShiftOne(n - 1);
    }
  }

  /** `b << n` for a bit. */
  function ShiftBit(b: bit, n: nat): (v: nat)
    ensures v < Pow2(n + 1)
  {
    if b == 0 then 0 else Pow2(n)
  }

  /** The low n bits of v, least significant bit first. */
  function BitList(v: nat, n: nat): (s: seq<bit>)
    ensures |s| == n
    decreases v, n
  {
    if n == 0 then [] else [v % 2] + BitList(v / 2, n - 1)
  }

  /** The number whose bits are s, least significant bit first. */
  function FromBits(s: seq<bit>): (v: nat)
    ensures v < Pow2(|s|)
  {
    if s == [] then 0 else s[0] + 2 * FromBits(s[1..])
  }

  /** The low n bits of v, most significant bit first: the order in which a Huffman code word is packed. */
  function CodeBits(v: nat, n: nat): (s: seq<bit>)
    ensures |s| == n
    decreases v, n
  {
    if n == 0 then [] else CodeBits(v / 2, n - 1) + [v % 2]
  }

  const CHAR_BIT: nat := 8

  function ByteBits(x: byte): (s: seq<bit>)
    ensures |s| == 8
  {
    BitList(x, CHAR_BIT)
  }

  lemma ByteFits(x: nat)
    ensures x < Pow2(CHAR_BIT) <==> x < 256
  {
    assert Pow2(CHAR_BIT) == 256;
  }

  /** The bits of a byte string, each byte least significant bit first. */
  function Bits(bytes: seq<byte>): (s: seq<bit>)
    ensures |s| == 8 * |bytes|
  {
    if bytes == [] then [] else ByteBits(bytes[0]) + Bits(bytes[1..])
  }

  lemma {:induction false} BitsAppend(a: seq<byte>, b: seq<byte>)
    ensures Bits(a + b) == Bits(a) + Bits(b)
  {
    if a == [] {
      assert a + b == b;
    } else {
      BitsAppend(a[1..], b);
      assert (a + b)[1..] == a[1..] + b;
      ConcatAssociative(ByteBits(a[0]), Bits(a[1..]), Bits(b));
    }
  }

  lemma CancelPrefix<T>(a: seq<T>, b: seq<T>, c: seq<T>)
    requires a + b == a + c
    ensures b == c
  {
    assert b == (a + b)[|a|..];
    assert c == (a + c)[|a|..];
  }

  lemma BitsSingle(x: byte)
    ensures Bits([x]) == ByteBits(x)
  {
    assert Bits([x]) == ByteBits(x) + Bits([]);
  }

  /** Reading back a written number: the two directions between numbers and bit lists. */
  lemma {:induction false} FromBitsOfBitList(v: nat, n: nat)
    requires v < Pow2(n)
    ensures FromBits(BitList(v, n)) == v
    decreases n
  {
    if n > 0 {
      FromBitsOfBitList(v / 2, n - 1);
      assert BitList(v, n)[1..] == BitList(v / 2, n - 1);
    }
  }

  lemma {:induction false} BitListOfFromBits(s: seq<bit>)
    ensures BitList(FromBits(s), |s|) == s
  {
    if s != [] {
      BitListOfFromBits(s[1..]);
      assert FromBits(s) / 2 == FromBits(s[1..]);
      assert s == [s[0]] + s[1..];
    }
  }

  lemma FromBitsNil()
    ensures FromBits([]) == 0
  {
  }

  lemma {:induction false} FromBitsSnoc(s: seq<bit>, b: bit)
    ensures FromBits(s + [b]) == FromBits(s) + ShiftBit(b, |s|)
  {
    if s == [] {
      assert (s + [b])[1..] == [];
    } else {
      FromBitsSnoc(s[1..], b);
      assert (s + [b])[1..] == s[1..] + [b];
    }
  }

  /** Bit k of v, as `(v >> k) & 1`. */
  function BitAt(v: nat, k: nat): bit
  {
    if k == 0 then v % 2 else BitAt(v / 2, k - 1)
  }

  lemma {:induction false} BitListSnoc(v: nat, n: nat)
    ensures BitList(v, n + 1) == BitList(v, n) + [BitAt(v, n)]
    decreases n
  {
    if n == 0 {
      assert BitList(v / 2, 0) == [];
    } else {
      BitListSnoc(v / 2, n - 1);
    }
  }

  /** A bit added on top of an n-bit number is its bit n. */
  lemma {:induction false} BitListPush(v: nat, n: nat, b: bit)
    requires v < Pow2(n)
    ensures v + ShiftBit(b, n) < Pow2(n + 1)
    ensures BitList(v + ShiftBit(b, n), n + 1) == BitList(v, n) + [b]
    decreases n
  {
    if n == 0 {
      assert BitList(b / 2, 0) == [];
    } else {
      var w := v + ShiftBit(b, n);
      BitListPush(v / 2, n - 1, b);
      assert w % 2 == v % 2 && w / 2 == v / 2 + ShiftBit(b, n - 1);
    }
  }

  lemma DivPow2(v: nat, n: nat)
    requires n > 0
    ensures v / Pow2(n) == v / 2 / Pow2(n - 1)
  {
    var p := Pow2(n - 1);
    var q, r := v / 2 / p, v / 2 % p;
    assert v / 2 == q * p + r;
    assert v == q * Pow2(n) + (2 * r + v % 2);
    DivUnique(v, Pow2(n), q, 2 * r + v % 2);
  }

  /** The prefix of a code word is the code word shifted right. */
  lemma {:induction false} CodeBitsPrefix(v: nat, n: nat, k: nat)
    requires k <= n
    ensures CodeBits(v, n)[..k] == CodeBits(v / Pow2(n - k), k)
    decreases n - k
  {
    if k < n {
      assert CodeBits(v, n)[..n - 1] == CodeBits(v / 2, n - 1);
      CodeBitsPrefix(v / 2, n - 1, k);
      assert CodeBits(v, n)[..k] == CodeBits(v, n)[..n - 1][..k];
      DivPow2(v, n - k);
    }
  }

  lemma {:induction false} CodeBitsInjective(a: nat, b: nat, n: nat)
    requires a < Pow2(n) && b < Pow2(n)
    requires CodeBits(a, n) == CodeBits(b, n)
    ensures a == b
    decreases n
  {
    if n > 0 {
      var s := CodeBits(a / 2, n - 1);
      var t := CodeBits(b / 2, n - 1);
      assert s == (s + [a % 2])[..n - 1];
      assert t == (t + [b % 2])[..n - 1];
      assert a % 2 == (s + [a % 2])[n - 1];
      assert b % 2 == (t + [b % 2])[n - 1];
      CodeBitsInjective(a / 2, b / 2, n - 1);
    }
  }

  /** The bits of s in the opposite order. */
  function Reverse(s: seq<bit>): (r: seq<bit>)
    ensures |r| == |s|
  {
    if s == [] then [] else Reverse(s[1..]) + [s[0]]
  }

  lemma {:induction false} ReverseSnoc(s: seq<bit>, b: bit)
    ensures Reverse(s + [b]) == [b] + Reverse(s)
  {
    if s == [] {
      assert s + [b] == [b];
      assert Reverse([b]) == Reverse([]) + [b];
    } else {
      ReverseSnoc(s[1..], b);
      assert (s + [b])[1..] == s[1..] + [b];
    }
  }

  lemma {:induction false} CodeBitsIsReverse(v: nat, n: nat)
    ensures CodeBits(v, n) == Reverse(BitList(v, n))
    decreases n
  {
    if n > 0 {
      CodeBitsIsReverse(v / 2, n - 1);
      assert BitList(v, n)[1..] == BitList(v / 2, n - 1);
    }
  }
}
