/** The UTF-8 decoder and encoder of common/utf8.c (sections 3 and 4 of RFC 3629).  The decoder takes one byte at
    a time and keeps what it needs in an int.
 */
module Utf8 {
  import opened Machine

  const WAITING: int := -1
  const ERROR_CONSUME: int := -2
  const ERROR_RETRY: int := -3

  predicate IsScalar(v: int)
  {
    0 <= v <= 0x10_FFFF && !(0xD800 <= v <= 0xDFFF)
  }

  // ----- Encoding

  /** The bytes of a number; none if it is no scalar value. */
  function Encoded(v: nat): (b: seq<byte>)
    ensures b == [] <==> !IsScalar(v)
    ensures |b| <= 4
  {
    if v <= 0x7F then [v]
    else if v <= 0x7FF then [0xC0 + v / 0x40, 0x80 + v % 0x40]
    else if 0xD800 <= v <= 0xDFFF then []
    else if v <= 0xFFFF then [0xE0 + v / 0x1000, 0x80 + v / 0x40 % 0x40, 0x80 + v % 0x40]
    else if v <= 0x10_FFFF then
      [0xF0 + v / 0x4_0000, 0x80 + v / 0x1000 % 0x40, 0x80 + v / 0x40 % 0x40, 0x80 + v % 0x40]
    else []
  }

  /** utf8_encode */
  method Encode(unicode: nat, out: array<byte>) returns (n: nat)
    requires out.Length >= 4
    modifies out
    ensures n == |Encoded(unicode)| && out[..n] == Encoded(unicode)
    ensures forall k | n <= k < out.Length :: out[k] == old(out[k])
  {
    if unicode <= 0x7F {
      out[0] := unicode;
      return 1;
    }
    if unicode <= 0x7FF {
      out[0] := 0xC0 + unicode / 0x40;
      out[1] := 0x80 + unicode % 0x40;
      return 2;
    }
    if 0xD800 <= unicode <= 0xDFFF {
      return 0;
    }
    if unicode <= 0xFFFF {
      out[0] := 0xE0 + unicode / 0x1000;
      out[1] := 0x80 + unicode / 0x40 % 0x40;
      out[2] := 0x80 + unicode % 0x40;
      return 3;
    }
    if unicode <= 0x10_FFFF {
      out[0] := 0xF0 + unicode / 0x4_0000;
      out[1] := 0x80 + unicode / 0x1000 % 0x40;
      out[2] := 0x80 + unicode / 0x40 % 0x40;
      out[3] := 0x80 + unicode % 0x40;
      return 4;
    }
    return 0;
  }

  // ----- Decoding

  /** utf8_table: 0 for a byte that stands alone, 1 for one that continues, else the length of the sequence that
      it starts, and -1 for a byte that never occurs. */
  function Class(c: byte): int
  {
    if c < 0x80 then 0 else if c < 0xC0 then 1 else if c < 0xE0 then 2 else if c < 0xF0 then 3
    else if c < 0xF8 then 4 else -1
  }

  /** The bits of the number in the first byte of a sequence with so many continuations. */
  function LeadBits(c: byte, k: int): nat
  {
    if k == 1 then c % 0x20 else if k == 2 then c % 0x10 else c % 8
  }

  /** The smallest number that needs so many continuations. */
  function Least(k: int): nat
  {
    if k == 1 then 0x80 else if k == 2 then 0x800 else if k == 3 then 0x1_0000 else 0
  }

  // The state is 16 * (the bits so far) + 4 * (continuations in all) + (continuations still to come).
  function Packed(bits: nat, k: nat, left: nat): nat
  {
    bits * 16 + k * 4 + left
  }

  /** One byte: the new state and the answer. */
  function Step(state: nat, c: byte): (r: (nat, int))
  {
    if state == 0 then
      if c < 0x80 then (0, c)
      else if Class(c) <= 1 then (0, ERROR_CONSUME)
      else (Packed(LeadBits(c, Class(c) - 1), Class(c) - 1, Class(c) - 1), WAITING)
    else if Class(c) != 1 then (0, ERROR_RETRY)
    else
      var val := state / 16 % 0x8000 * 0x40 + c % 0x40;
      if state % 4 > 1 then (val * 16 + (state % 16 - 1), WAITING)
      else if val < Least(state % 16 / 4) || 0xD800 <= val <= 0xDFFF || val > 0x10_FFFF then (0, ERROR_CONSUME)
      else (0, val)
  }

  class Decoder {
    var state: nat

    constructor ()
      ensures state == 0
    {
      state := 0;
    }

    /** utf8_decode */
    method Decode(c: byte) returns (r: int)
      modifies this
      ensures (state, r) == Step(old(state), c)
    {
      hide Class, LeadBits, Least;
      var val := state;
      if val == 0 {
        if c < 0x80 {
          return c;
        }
        var offset := Class(c);
        if offset <= 1 {
          return ERROR_CONSUME;
        }
        offset := offset - 1;
        val := LeadBits(c, offset);
        state := val * 16 + offset * 4 + offset;
        return WAITING;
      }
      state := 0;
      if Class(c) != 1 {
        return ERROR_RETRY;
      }
      var offset := val % 16;
      val := val / 16 % 0x8000 * 0x40 + c % 0x40;
      if offset % 4 > 1 {
        state := val * 16 + (offset - 1);
        return WAITING;
      }
      if val < Least(offset / 4) {
        return ERROR_CONSUME;
      }
      if 0xD800 <= val <= 0xDFFF || val > 0x10_FFFF {
        return ERROR_CONSUME;
      }
      return val;
    }
  }

  // ----- The bytes since the decoder was last idle

  /** The first byte of a sequence with so many continuations and these bits. */
  function Lead(k: nat, bits: nat): int
  {
    (if k == 1 then 0xC0 else if k == 2 then 0xE0 else 0xF0) + bits
  }

  ghost predicate PendingWith(state: nat, b: seq<byte>, k: nat, bits: nat)
  {
    && 1 <= k <= 3 && 1 <= |b| <= k && state == Packed(bits, k, k + 1 - |b|)
    && match |b|
       case 1 => b[0] == Lead(k, bits) && bits < (if k == 1 then 0x20 else if k == 2 then 0x10 else 8)
       case 2 => b[0] == Lead(k, bits / 0x40) && b[1] == 0x80 + bits % 0x40
                 && bits / 0x40 < (if k == 2 then 0x10 else 8)
       case _ => b[0] == Lead(k, bits / 0x1000) && b[1] == 0x80 + bits / 0x40 % 0x40 && b[2] == 0x80 + bits % 0x40
                 && bits / 0x1000 < 8
  }

  /** The state after these bytes, which start a sequence and do not end it. */
  ghost predicate Pending(state: nat, b: seq<byte>)
  {
    || (b == [] && state == 0)
    || exists k: nat, bits: nat :: PendingWith(state, b, k, bits)
  }

  lemma UnpackState(bits: nat, k: nat, left: nat)
    requires 1 <= k <= 3 && left <= 3
    ensures var s := Packed(bits, k, left);
            s / 16 == bits && s % 16 == 4 * k + left && s % 4 == left && s % 16 / 4 == k
  {
  }

  lemma Shifted(bits: nat, low: nat)
    requires low < 0x40
    ensures (bits * 0x40 + low) / 0x40 == bits && (bits * 0x40 + low) % 0x40 == low
    ensures (bits * 0x40 + low) / 0x1000 == bits / 0x40
  {
  }

  lemma StepLead(c: byte)
    requires 2 <= Class(c)
    ensures Pending(Packed(LeadBits(c, Class(c) - 1), Class(c) - 1, Class(c) - 1), [c])
    ensures Packed(LeadBits(c, Class(c) - 1), Class(c) - 1, Class(c) - 1) != 0
  {
    var k := Class(c) - 1;
    assert PendingWith(Packed(LeadBits(c, k), k, k), [c], k, LeadBits(c, k));
  }

  lemma StepMore(state: nat, b: seq<byte>, c: byte, k: nat, bits: nat)
    requires PendingWith(state, b, k, bits) && Class(c) == 1 && |b| < k
    ensures var (next, r) := Step(state, c);
            r == WAITING && Pending(next, b + [c]) && next != 0
  {
    UnpackState(bits, k, k + 1 - |b|);
    var val := bits * 0x40 + c % 0x40;
    Shifted(bits, c % 0x40);
    var next := Step(state, c).0;
    assert bits < 0x8000;
    assert next == val * 16 + (4 * k + (k + 1 - |b|) - 1) == Packed(val, k, k - |b|);
    assert c == 0x80 + c % 0x40;
    assert PendingWith(next, b + [c], k, val);
  }

  lemma LastFits(state: nat, b: seq<byte>, k: nat, bits: nat)
    requires PendingWith(state, b, k, bits)
    ensures 1 <= k <= 3 && bits < 0x8000 && state == Packed(bits, k, k + 1 - |b|)
  {
  }

  lemma FourDigits(bits: nat, low: nat)
    requires low < 0x40
    ensures (bits * 0x40 + low) / 0x4_0000 == bits / 0x1000 && (bits * 0x40 + low) / 0x1000 == bits / 0x40
  {
  }

  lemma LastIsEncoded(state: nat, b: seq<byte>, c: byte, k: nat, bits: nat)
    requires PendingWith(state, b, k, bits) && Class(c) == 1 && |b| == k
    requires var val := bits * 0x40 + c % 0x40;
             Least(k) <= val && IsScalar(val)
    ensures b + [c] == Encoded(bits * 0x40 + c % 0x40)
  {
    var val := bits * 0x40 + c % 0x40;
    Shifted(bits, c % 0x40);
    assert c == 0x80 + c % 0x40;
    if k == 1 {
      assert b == [0xC0 + val / 0x40];
    } else if k == 2 {
      assert b == [0xE0 + val / 0x1000, 0x80 + val / 0x40 % 0x40];
    } else {
      FourDigits(bits, c % 0x40);
      assert b == [0xF0 + val / 0x4_0000, 0x80 + val / 0x1000 % 0x40, 0x80 + val / 0x40 % 0x40];
    }
  }

  lemma StepLast(state: nat, b: seq<byte>, c: byte, k: nat, bits: nat)
    requires PendingWith(state, b, k, bits) && Class(c) == 1 && |b| == k
    ensures var (next, r) := Step(state, c);
            && next == 0 && r != WAITING
            && (r >= 0 ==> IsScalar(r) && b + [c] == Encoded(r))
  {
    hide Encoded, PendingWith, Class;
    LastFits(state, b, k, bits);
    UnpackState(bits, k, 1);
    var val := bits * 0x40 + c % 0x40;
    Shifted(bits, c % 0x40);
    if Step(state, c).1 >= 0 {
      LastIsEncoded(state, b, c, k, bits);
    }
  }

  /** What one byte does to a pending sequence: it continues it, or ends it as the encoding of the answer, or the
      decoder is idle again with an error. */
  lemma StepPending(state: nat, b: seq<byte>, c: byte)
    requires Pending(state, b)
    ensures var (next, r) := Step(state, c);
            && (r == WAITING ==> Pending(next, b + [c]) && next != 0)
            && (r >= 0 ==> next == 0 && IsScalar(r) && b + [c] == Encoded(r))
            && (r < 0 && r != WAITING ==> next == 0)
  {
    if b == [] && state == 0 {
      assert b + [c] == [c];
      if c >= 0x80 && Class(c) > 1 {
        StepLead(c);
      }
    } else {
      var k: nat, bits: nat :| PendingWith(state, b, k, bits);
      UnpackState(bits, k, k + 1 - |b|);
      if Class(c) == 1 {
        if |b| < k {
          StepMore(state, b, c, k, bits);
        } else {
          StepLast(state, b, c, k, bits);
        }
      }
    }
  }

  // ----- Streams

  function After(state: nat, s: seq<byte>): nat
    decreases |s|
  {
    if s == [] then state else After(Step(state, s[0]).0, s[1..])
  }

  /** The answers to a stream, those left out that only ask for more. */
  function Answers(state: nat, s: seq<byte>): seq<int>
    decreases |s|
  {
    if s == [] then []
    else (if Step(state, s[0]).1 == WAITING then [] else [Step(state, s[0]).1]) + Answers(Step(state, s[0]).0, s[1..])
  }

  lemma {:induction false} AnswersConcat(state: nat, a: seq<byte>, b: seq<byte>)
    ensures After(state, a + b) == After(After(state, a), b)
    ensures Answers(state, a + b) == Answers(state, a) + Answers(After(state, a), b)
    decreases |a|
  {
    hide Step;
    if a == [] {
      assert a + b == b;
    } else {
      assert (a + b)[1..] == a[1..] + b;
      AnswersConcat(Step(state, a[0]).0, a[1..], b);
    }
  }

  lemma OneByte(state: nat, c: byte)
    ensures After(state, [c]) == Step(state, c).0
    ensures Answers(state, [c]) == if Step(state, c).1 == WAITING then [] else [Step(state, c).1]
  {
    hide Step;
    assert [c][1..] == [];
  }

  /** A continuation byte, not the last. */
  lemma Continue(bits: nat, k: nat, left: nat, low: nat)
    requires 1 <= k <= 3 && 2 <= left <= 3 && bits < 0x8000 && low < 0x40
    ensures Step(Packed(bits, k, left), 0x80 + low) == (Packed(bits * 0x40 + low, k, left - 1), WAITING)
  {
    UnpackState(bits, k, left);
    Shifted(2, low);
  }

  lemma Finish(bits: nat, k: nat, low: nat)
    requires 1 <= k <= 3 && bits < 0x8000 && low < 0x40 && IsScalar(bits * 0x40 + low) && Least(k) <= bits * 0x40 + low
    ensures Step(Packed(bits, k, 1), 0x80 + low) == (0, bits * 0x40 + low)
  {
    UnpackState(bits, k, 1);
    Shifted(2, low);
  }

  lemma Begin(k: nat, bits: nat)
    requires 1 <= k <= 3 && bits < if k == 1 then 0x20 else if k == 2 then 0x10 else 8
    ensures Step(0, Lead(k, bits)) == (Packed(bits, k, k), WAITING)
  {
  }

  lemma PlainByte(v: nat)
    requires v <= 0x7F
    ensures Step(0, v) == (0, v)
  {
  }

  lemma ThreeParts(v: nat)
    ensures v / 0x1000 * 0x40 + v / 0x40 % 0x40 == v / 0x40 && v / 0x40 * 0x40 + v % 0x40 == v
    ensures v / 0x40 / 0x40 == v / 0x1000 && v / 0x40 / 0x1000 == v / 0x4_0000
  {
  }

  lemma TwoSteps(state: nat, a: byte, b: byte)
    requires Step(state, a).1 == WAITING
    ensures After(state, [a, b]) == After(Step(state, a).0, [b]) == Step(Step(state, a).0, b).0
    ensures Step(Step(state, a).0, b).1 != WAITING ==> Answers(state, [a, b]) == [Step(Step(state, a).0, b).1]
  {
    hide Step;
    AnswersConcat(state, [a], [b]);
    OneByte(state, a);
    OneByte(Step(state, a).0, b);
    assert [a] + [b] == [a, b];
  }

  lemma ThreeSteps(state: nat, a: byte, b: byte, c: byte)
    requires Step(state, a).1 == WAITING && Step(Step(state, a).0, b).1 == WAITING
    ensures var t := Step(Step(state, a).0, b).0;
            After(state, [a, b, c]) == Step(t, c).0 && (Step(t, c).1 != WAITING ==> Answers(state, [a, b, c]) == [Step(t, c).1])
  {
    hide Step;
    AnswersConcat(state, [a], [b, c]);
    OneByte(state, a);
    TwoSteps(Step(state, a).0, b, c);
    assert [a] + [b, c] == [a, b, c];
  }

  lemma FourSteps(state: nat, a: byte, b: byte, c: byte, d: byte)
    requires Step(state, a).1 == WAITING && Step(Step(state, a).0, b).1 == WAITING
    requires Step(Step(Step(state, a).0, b).0, c).1 == WAITING
    ensures var t := Step(Step(Step(state, a).0, b).0, c).0;
            After(state, [a, b, c, d]) == Step(t, d).0 && (Step(t, d).1 != WAITING ==> Answers(state, [a, b, c, d]) == [Step(t, d).1])
  {
    hide Step;
    AnswersConcat(state, [a], [b, c, d]);
    OneByte(state, a);
    ThreeSteps(Step(state, a).0, b, c, d);
    assert [a] + [b, c, d] == [a, b, c, d];
  }

  /** The encoding of a scalar value is answered by that value, and the decoder is idle again. */
  lemma EncodedDecodes(v: nat)
    requires IsScalar(v)
    ensures After(0, Encoded(v)) == 0 && Answers(0, Encoded(v)) == [v]
  {
    hide Step, Packed, Class, LeadBits;
    if v <= 0x7F {
      OneByte(0, v);
      PlainByte(v);
    } else if v <= 0x7FF {
      var s := [Lead(1, v / 0x40), 0x80 + v % 0x40];
      assert Encoded(v) == s;
      Begin(1, v / 0x40);
      Finish(v / 0x40, 1, v % 0x40);
      TwoSteps(0, s[0], s[1]);
    } else if v <= 0xFFFF {
      var s := [Lead(2, v / 0x1000), 0x80 + v / 0x40 % 0x40, 0x80 + v % 0x40];
      assert Encoded(v) == s;
      Begin(2, v / 0x1000);
      ThreeParts(v);
      Continue(v / 0x1000, 2, 2, v / 0x40 % 0x40);
      Finish(v / 0x40, 2, v % 0x40);
      ThreeSteps(0, s[0], s[1], s[2]);
    } else {
      var s := [Lead(3, v / 0x4_0000), 0x80 + v / 0x1000 % 0x40, 0x80 + v / 0x40 % 0x40, 0x80 + v % 0x40];
      assert Encoded(v) == s;
      Begin(3, v / 0x4_0000);
      ThreeParts(v / 0x40);
      ThreeParts(v);
      Continue(v / 0x4_0000, 3, 3, v / 0x1000 % 0x40);
      Continue(v / 0x1000, 3, 2, v / 0x40 % 0x40);
      Finish(v / 0x40, 3, v % 0x40);
      FourSteps(0, s[0], s[1], s[2], s[3]);
    }
  }

  function EncodedAll(vs: seq<nat>): (s: seq<byte>)
  {
    if vs == [] then [] else Encoded(vs[0]) + EncodedAll(vs[1..])
  }

  /** Any list of scalar values comes back from the decoder as it went into the encoder. */
  lemma {:induction false} RoundTrip(vs: seq<nat>)
    requires forall i | 0 <= i < |vs| :: IsScalar(vs[i])
    ensures Answers(0, EncodedAll(vs)) == vs && After(0, EncodedAll(vs)) == 0
    decreases |vs|
  {
    hide Step, Encoded;
    if vs != [] {
      EncodedDecodes(vs[0]);
      RoundTrip(vs[1..]);
      AnswersConcat(0, Encoded(vs[0]), EncodedAll(vs[1..]));
    }
  }

  lemma NothingPending()
    ensures Pending(0, [])
  {
  }

  lemma AnswerOrIdle(state: nat, c: byte)
    requires Step(state, c).1 != WAITING
    ensures Step(state, c).0 == 0
  {
  }

  /** Where in a stream the decoder was last idle. */
  lemma {:induction false} IdleSince(s: seq<byte>) returns (j: nat)
    ensures j <= |s| && After(0, s[..j]) == 0 && Pending(After(0, s), s[j..])
    decreases |s|
  {
    hide Step, Pending;
    if s == [] {
      NothingPending();
      return 0;
    }
    var t, c := s[..|s| - 1], s[|s| - 1];
    assert s == t + [c];
    AnswersConcat(0, t, [c]);
    OneByte(After(0, t), c);
    j := IdleSince(t);
    StepPending(After(0, t), t[j..], c);
    if Step(After(0, t), c).1 == WAITING {
      assert s[j..] == t[j..] + [c] && s[..j] == t[..j];
    } else {
      NothingPending();
      AnswerOrIdle(After(0, t), c);
      assert s[..|s|] == s && s[|s|..] == [];
      j := |s|;
    }
  }

  /** On any stream: a byte that is answered by a number ends exactly that number's encoding, which began when the
      decoder was last idle. */
  lemma AnswerIsEncoded(s: seq<byte>, c: byte) returns (j: nat)
    requires Step(After(0, s), c).1 >= 0
    ensures j <= |s| && After(0, s[..j]) == 0
    ensures IsScalar(Step(After(0, s), c).1) && s[j..] + [c] == Encoded(Step(After(0, s), c).1)
  {
    hide Step, Pending;
    j := IdleSince(s);
    StepPending(After(0, s), s[j..], c);
  }

  /** The decoder on a whole stream. */
  method DecodeAll(s: seq<byte>) returns (answers: seq<int>)
    ensures answers == Answers(0, s)
  {
    hide Step;
    var decoder := new Decoder();
    answers := [];
    assert s[0..] == s;
    for i := 0 to |s|
      invariant Answers(0, s) == answers + Answers(decoder.state, s[i..])
    {
      ghost var was, state := answers, decoder.state;
      var r := decoder.Decode(s[i]);
      assert s[i..][1..] == s[i + 1..];
      assert was + ([r] + Answers(decoder.state, s[i + 1..])) == (was + [r]) + Answers(decoder.state, s[i + 1..]);
      if r != WAITING {
        answers := answers + [r];
      }
    }
    assert s[|s|..] == [];
  }

  // ----- The form of the bytes

  /** The six bits of a byte that continues a sequence. */
  function Six(c: byte): int
  {
    c as int - 0x80
  }

  /** The table of section 3 of RFC 3629: how many bytes a number takes, what the first one begins with, and the weights
      of the bits in all of them. */
  ghost predicate HasForm(b: seq<byte>, v: nat)
  {
    && |b| == (if v < 0x80 then 1 else if v < 0x800 then 2 else if v < 0x1_0000 then 3 else 4)
    && (forall i | 1 <= i < |b| :: 0 <= Six(b[i]) < 0x40)
    && var lead: int := b[0];
       match |b|
       case 1 => v == lead
       case 2 => 0xC0 <= lead < 0xE0 && v == (lead - 0xC0) * 0x40 + Six(b[1])
       case 3 => 0xE0 <= lead < 0xF0 && v == (lead - 0xE0) * 0x1000 + Six(b[1]) * 0x40 + Six(b[2])
       case _ => 0xF0 <= lead < 0xF8
                 && v == (lead - 0xF0) * 0x4_0000 + Six(b[1]) * 0x1000 + Six(b[2]) * 0x40 + Six(b[3])
  }

  lemma FormDetermines(b: seq<byte>, e: seq<byte>, v: nat)
    requires HasForm(b, v) && HasForm(e, v)
    ensures b == e
  {
    assert forall i | 1 <= i < |b| :: 0 <= Six(b[i]) < 0x40 && 0 <= Six(e[i]) < 0x40;
    assert |b| == |e|;
    assert b[0] == e[0];
    assert |b| > 1 ==> b[1] == e[1];
    assert |b| > 2 ==> b[2] == e[2];
    assert |b| > 3 ==> b[3] == e[3];
  }

  lemma SixBySix(v: nat)
    ensures v == v / 0x40 * 0x40 + v % 0x40 == v / 0x1000 * 0x1000 + v / 0x40 % 0x40 * 0x40 + v % 0x40
    ensures v == v / 0x4_0000 * 0x4_0000 + v / 0x1000 % 0x40 * 0x1000 + v / 0x40 % 0x40 * 0x40 + v % 0x40
  {
    ThreeParts(v);
    ThreeParts(v / 0x40);
  }

  lemma EncodedHasForm(v: nat)
    requires IsScalar(v)
    ensures HasForm(Encoded(v), v)
  {
    SixBySix(v);
  }

  /** The bytes of a scalar value have this form, and no other bytes have it. */
  lemma EncodedForm(v: nat, b: seq<byte>)
    requires IsScalar(v)
    ensures HasForm(b, v) <==> b == Encoded(v)
  {
    hide HasForm, Encoded;
    EncodedHasForm(v);
    if HasForm(b, v) {
      FormDetermines(b, Encoded(v), v);
    }
  }
}
