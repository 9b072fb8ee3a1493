/** The parameters of control sequences and the graphic rendition that they select (kernel/base/console.c). */
module ConsoleEscape {
  // ----- Parameters

  const COUNT_LIMIT: nat := 16
  const VALUE_LIMIT: nat := 0x1_0000

  datatype Parsed = Bad | Good(values: seq<nat>)

  predicate IsDigit(c: nat)
  {
    0x30 <= c <= 0x39
  }

  function Clamp(v: nat): nat
  {
    if v > VALUE_LIMIT then VALUE_LIMIT else v
  }

  function Prepend(v: nat, p: Parsed): Parsed
  {
    match p
    case Bad => Bad
    case Good(values) => Good([v] + values)
  }

  function ParseFrom(v: nat, s: seq<nat>): (p: Parsed)
    ensures p.Good? ==> p.values != []
    decreases |s|, 0
  {
    if s == [] then Good([v])
    else if IsDigit(s[0]) then ParseFrom(Clamp(v * 10 + (s[0] - 0x30)), s[1..])
    else if s[0] == 0x3B then Prepend(v, Parse(s[1..]))
    else Bad
  }

  /** The numbers of a text between semicolons; an empty text has none, and nothing behind the last semicolon
      is none either. */
  function Parse(s: seq<nat>): (p: Parsed)
    decreases |s|, 1
  {
    if s == [] then Good([]) else ParseFrom(0, s)
  }

  /** At most 16 numbers. */
  function Parameters(s: seq<nat>): Parsed
  {
    match Parse(s)
    case Bad => Bad
    case Good(values) => if |values| > COUNT_LIMIT then Bad else Good(values)
  }

  function Append(values: seq<nat>, p: Parsed): Parsed
  {
    match p
    case Bad => Bad
    case Good(more) => Good(values + more)
  }

  // The characters of a sequence in front of its last one.
  predicate IsInner(c: nat)
  {
    0x20 <= c <= 0x3F || c == 0x5B
  }

  lemma AppendNothing(p: Parsed)
    ensures Append([], p) == p
  {
    if p.Good? {
      assert [] + p.values == p.values;
    }
  }

  lemma AppendBad(values: seq<nat>)
    ensures Append(values, Bad) == Bad
  {
  }

  lemma AppendMore(values: seq<nat>, v: nat, p: Parsed)
    ensures Append(values, Prepend(v, p)) == Append(values + [v], p)
    ensures Append(values + [v], Good([])) == Good(values + [v])
  {
    if p.Good? {
      assert values + ([v] + p.values) == (values + [v]) + p.values;
    }
  }

  lemma TooMany(values: seq<nat>, p: Parsed)
    requires p.Good? ==> p.values != []
    ensures var r := Append(values, p);
            r.Good? ==> |r.values| > |values|
  {
  }

  lemma ParseStart(s: seq<nat>)
    ensures s == [] ==> Parse(s) == Good([])
    ensures s != [] ==> Parse(s) == ParseFrom(0, s)
  {
  }

  lemma ParseDigit(v: nat, s: seq<nat>)
    ensures s != [] && IsDigit(s[0]) ==> ParseFrom(v, s) == ParseFrom(Clamp(v * 10 + (s[0] - 0x30)), s[1..])
    ensures forall w: nat :: Clamp(w) == if w > VALUE_LIMIT then VALUE_LIMIT else w
  {
  }

  lemma ParseEnd(v: nat, s: seq<nat>)
    ensures s == [] ==> ParseFrom(v, s) == Prepend(v, Good([])) == Good([v])
    ensures s != [] && s[0] == 0x3B ==> ParseFrom(v, s) == Prepend(v, Parse(s[1..]))
    ensures s != [] && !IsDigit(s[0]) && s[0] != 0x3B ==> ParseFrom(v, s) == Bad
    ensures ParseFrom(v, s).Good? ==> ParseFrom(v, s).values != []
  {
    assert [v] + [] == [v];
  }

  /** The parameter loop of con_handle_escape: from place `start` to the character in front of `end`, which is the
      last one of the sequence.  No place behind it is read. */
  method ParseParameters(esc: array<nat>, start: nat, end: nat) returns (r: Parsed)
    requires start < end <= esc.Length && !IsInner(esc[end - 1])
    requires forall k | start <= k < end - 1 :: IsInner(esc[k])
    ensures r == Parameters(esc[start..end - 1])
  {
    hide Parse, ParseFrom, Clamp;
    var kind := esc[end - 1];
    ghost var s := esc[start..end - 1];
    var values: seq<nat> := [];
    var p := start;
    assert s[0..] == s;
    AppendNothing(Parse(s));
    while p < end
      invariant start <= p <= end
      invariant |values| <= COUNT_LIMIT
      invariant p < end ==> Parse(s) == Append(values, Parse(s[p - start..]))
      invariant p == end ==> Parse(s) == Good(values)
    {
      var c := esc[p];
      ghost var t := s[p - start..];
      ParseStart(t);
      if c == kind {
        assert p == end - 1 && t == [];
        break;
      }
      assert p < end - 1 && t[0] == c;
      var parameter := 0;
      while IsDigit(c)
        invariant start <= p < end && c == esc[p] && parameter >= 0
        invariant Parse(t) == ParseFrom(parameter, s[p - start..])
        decreases end - p
      {
        ParseDigit(parameter, s[p - start..]);
        assert p < end - 1 by {
          assert !IsInner(esc[end - 1]);
        }
        assert s[p - start] == esc[p];
        assert s[p - start..][1..] == s[p + 1 - start..];
        parameter := parameter * 10 + (c - 0x30);
        p := p + 1;
        c := esc[p];
        if parameter > VALUE_LIMIT {
          parameter := VALUE_LIMIT;
        }
      }
      ghost var u := s[p - start..];
      ParseEnd(parameter, u);
      assert p == end - 1 ==> u == [];
      assert p < end - 1 ==> u[0] == esc[p] && u[1..] == s[p + 1 - start..];
      if c != 0x3B && c != kind {
        AppendBad(values);
        return Bad;
      }
      if |values| == COUNT_LIMIT {
        TooMany(values, Parse(t));
        return Bad;
      }
      AppendMore(values, parameter, if u == [] then Good([]) else Parse(u[1..]));
      values := values + [parameter];
      p := p + 1;
    }
    return Good(values);
  }

  function Joined(groups: seq<seq<nat>>): seq<nat>
  {
    if groups == [] then []
    else if |groups| == 1 then groups[0]
    else groups[0] + ([0x3B] + Joined(groups[1..]))
  }

  function Number(v: nat, s: seq<nat>): nat
    requires forall j | 0 <= j < |s| :: IsDigit(s[j])
    decreases |s|
  {
    if s == [] then v
    else
      assert IsDigit(s[0]);
      Number(Clamp(v * 10 + (s[0] - 0x30)), s[1..])
  }

  function Numbers(groups: seq<seq<nat>>): seq<nat>
    requires forall i | 0 <= i < |groups| :: forall j | 0 <= j < |groups[i]| :: IsDigit(groups[i][j])
  {
    if groups == [] then [] else [Number(0, groups[0])] + Numbers(groups[1..])
  }

  /** The number that decimal digits spell. */
  ghost function Decimal(s: seq<nat>): nat
    requires forall j | 0 <= j < |s| :: IsDigit(s[j])
  {
    if s == [] then 0
    else
      assert IsDigit(s[|s| - 1]);
      10 * Decimal(s[..|s| - 1]) + (s[|s| - 1] - 0x30)
  }

  lemma {:induction false} NumberMore(v: nat, s: seq<nat>, d: nat)
    requires (forall j | 0 <= j < |s| :: IsDigit(s[j])) && IsDigit(d)
    ensures forall j | 0 <= j < |s| + 1 :: IsDigit((s + [d])[j])
    ensures Number(v, s + [d]) == Clamp(Number(v, s) * 10 + (d - 0x30))
    decreases |s|
  {
    if s == [] {
      assert ([] + [d])[1..] == [];
    } else {
      assert (s + [d])[1..] == s[1..] + [d];
      NumberMore(Clamp(v * 10 + (s[0] - 0x30)), s[1..], d);
    }
  }

  /** A parameter is the number that its digits spell, or the limit if that is more. */
  lemma {:induction false} NumberIsDecimal(s: seq<nat>)
    requires forall j | 0 <= j < |s| :: IsDigit(s[j])
    ensures Number(0, s) == if Decimal(s) > 0x1_0000 then 0x1_0000 else Decimal(s)
    decreases |s|
  {
    if s != [] {
      var front, d := s[..|s| - 1], s[|s| - 1];
      assert IsDigit(d);
      NumberIsDecimal(front);
      NumberMore(0, front, d);
      assert s == front + [d];
    }
  }

  lemma {:induction false} NumberEnds(v: nat, s: seq<nat>, rest: seq<nat>)
    requires forall j | 0 <= j < |s| :: IsDigit(s[j])
    requires rest == [] || rest[0] == 0x3B
    ensures ParseFrom(v, s + rest) == if rest == [] then Good([Number(v, s)]) else Prepend(Number(v, s), Parse(rest[1..]))
    decreases |s|
  {
    if s == [] {
      assert s + rest == rest;
    } else {
      assert (s + rest)[1..] == s[1..] + rest;
      NumberEnds(Clamp(v * 10 + (s[0] - 0x30)), s[1..], rest);
    }
  }

  /** Numbers that are written out come back. */
  lemma {:induction false} ParseJoined(groups: seq<seq<nat>>)
    requires forall i | 0 <= i < |groups| :: forall j | 0 <= j < |groups[i]| :: IsDigit(groups[i][j])
    requires groups != [] && groups[|groups| - 1] != []
    ensures Parse(Joined(groups)) == Good(Numbers(groups))
    decreases |groups|
  {
    var s := Joined(groups);
    if |groups| == 1 {
      assert s == groups[0] && groups[1..] == [];
      NumberEnds(0, groups[0], []);
      assert groups[0] + [] == groups[0];
    } else {
      var rest := Joined(groups[1..]);
      ParseJoined(groups[1..]);
      NumberEnds(0, groups[0], [0x3B] + rest);
      assert ([0x3B] + rest)[1..] == rest;
    }
  }

  // ----- Graphic rendition

  /** What the bits of an attribute mean. */
  datatype Style = Style(bold: bool, underline: bool, reversed: bool, fg: bv32, bg: bv32)

  const DEFAULT: bv32 := 0x0080_0000
  const INTENSITY: bv32 := 0x4000_0000
  const REVERSED: bv32 := 0x2000_0000
  const UNDERLINE: bv32 := 0x1000_0000

  predicate HasBit(a: bv32, bit: bv32)
  {
    a & bit != 0
  }

  function ForegroundOf(a: bv32): bv32
  {
    15 - ((a >> 20) & 15)
  }

  function BackgroundOf(a: bv32): bv32
  {
    (a >> 24) & 15
  }

  function StyleOf(a: bv32): Style
  {
    Style(HasBit(a, INTENSITY), HasBit(a, UNDERLINE), HasBit(a, REVERSED), ForegroundOf(a), BackgroundOf(a))
  }

  // The bit operations of the rendition.
  function WithBit(a: bv32, bit: bv32): bv32
  {
    a | bit
  }

  function WithoutBit(a: bv32, bit: bv32): bv32
  {
    a & !bit
  }

  function WithForeground(a: bv32, color: bv32): bv32
  {
    (a & 0xFF0F_FFFF) | ((15 - color) << 20)
  }

  function WithBackground(a: bv32, color: bv32): bv32
  {
    (a & 0xF0FF_FFFF) | (color << 24)
  }

  /** The bits of the character and the mark of rendered cells are free. */
  predicate AttributeOk(a: bv32)
  {
    a & 0x800F_FFFF == 0
  }

  // A number from 0 to 15 in 32 bits.
  function Nibble(n: int): bv32
  {
    match n
    case 1 => 1
    case 2 => 2
    case 3 => 3
    case 4 => 4
    case 5 => 5
    case 6 => 6
    case 7 => 7
    case 8 => 8
    case 9 => 9
    case 10 => 10
    case 11 => 11
    case 12 => 12
    case 13 => 13
    case 14 => 14
    case 15 => 15
    case _ => 0
  }

  /** The color that a parameter sets for the foreground, or -1. */
  function Foreground(p: nat): int
  {
    if p == 39 then 7 else if 30 <= p <= 37 then p - 30 else if 90 <= p <= 97 then p - 82 else -1
  }

  function Background(p: nat): int
  {
    if p == 49 then 0 else if 40 <= p <= 47 then p - 40 else if 100 <= p <= 107 then p - 92 else -1
  }

  /** One parameter of Select Graphic Rendition. */
  function Selected(st: Style, p: nat): Style
  {
    if p == 0 then Style(false, false, false, 7, 0)
    else if p == 1 then st.(bold := true)
    else if p == 4 then st.(underline := true)
    else if p == 7 then st.(reversed := true)
    else if p == 22 then st.(bold := false)
    else if p == 24 then st.(underline := false)
    else if p == 27 then st.(reversed := false)
    else if Foreground(p) >= 0 then st.(fg := Nibble(Foreground(p)))
    else if Background(p) >= 0 then st.(bg := Nibble(Background(p)))
    else st
  }

  function AllSelected(st: Style, ps: seq<nat>): Style
  {
    if ps == [] then st else Selected(AllSelected(st, ps[..|ps| - 1]), ps[|ps| - 1])
  }

  lemma BoldOn(a: bv32)
    requires AttributeOk(a)
    ensures AttributeOk(WithBit(a, INTENSITY)) && StyleOf(WithBit(a, INTENSITY)) == StyleOf(a).(bold := true)
  {
  }

  lemma BoldOff(a: bv32)
    requires AttributeOk(a)
    ensures AttributeOk(WithoutBit(a, INTENSITY)) && StyleOf(WithoutBit(a, INTENSITY)) == StyleOf(a).(bold := false)
  {
  }

  lemma UnderlineOn(a: bv32)
    requires AttributeOk(a)
    ensures AttributeOk(WithBit(a, UNDERLINE)) && StyleOf(WithBit(a, UNDERLINE)) == StyleOf(a).(underline := true)
  {
  }

  lemma UnderlineOff(a: bv32)
    requires AttributeOk(a)
    ensures AttributeOk(WithoutBit(a, UNDERLINE)) && StyleOf(WithoutBit(a, UNDERLINE)) == StyleOf(a).(underline := false)
  {
  }

  lemma ReversedOn(a: bv32)
    requires AttributeOk(a)
    ensures AttributeOk(WithBit(a, REVERSED)) && StyleOf(WithBit(a, REVERSED)) == StyleOf(a).(reversed := true)
  {
  }

  lemma ReversedOff(a: bv32)
    requires AttributeOk(a)
    ensures AttributeOk(WithoutBit(a, REVERSED)) && StyleOf(WithoutBit(a, REVERSED)) == StyleOf(a).(reversed := false)
  {
  }

  lemma Default()
    ensures AttributeOk(DEFAULT) && StyleOf(DEFAULT) == Style(false, false, false, 7, 0)
  {
  }

  lemma ForegroundSet(a: bv32, color: bv32)
    requires color & 15 == color
    ensures ForegroundOf(WithForeground(a, color)) == color
  {
  }

  lemma ForegroundKeeps(a: bv32, color: bv32)
    requires AttributeOk(a) && color & 15 == color
    ensures AttributeOk(WithForeground(a, color)) && BackgroundOf(WithForeground(a, color)) == BackgroundOf(a)
  {
  }

  lemma ForegroundKeepsBits(a: bv32, color: bv32)
    requires color & 15 == color
    ensures HasBit(WithForeground(a, color), INTENSITY) == HasBit(a, INTENSITY)
    ensures HasBit(WithForeground(a, color), UNDERLINE) == HasBit(a, UNDERLINE)
    ensures HasBit(WithForeground(a, color), REVERSED) == HasBit(a, REVERSED)
  {
  }

  lemma ForegroundStyle(a: bv32, color: bv32)
    requires AttributeOk(a) && color & 15 == color
    ensures AttributeOk(WithForeground(a, color)) && StyleOf(WithForeground(a, color)) == StyleOf(a).(fg := color)
  {
    hide AttributeOk, HasBit, ForegroundOf, BackgroundOf, WithForeground;
    ForegroundSet(a, color);
    ForegroundKeeps(a, color);
    ForegroundKeepsBits(a, color);
  }

  lemma BackgroundStyle(a: bv32, color: bv32)
    requires AttributeOk(a) && color & 15 == color
    ensures AttributeOk(WithBackground(a, color)) && StyleOf(WithBackground(a, color)) == StyleOf(a).(bg := color)
  {
  }

  lemma NibbleBits(n: int)
    ensures Nibble(n) & 15 == Nibble(n)
  {
  }

  lemma Colors(p: nat)
    ensures Foreground(p) >= 0 ==> p >= 30 && Background(p) < 0
    ensures p in {0, 1, 4, 7, 22, 24, 27} ==> Foreground(p) < 0 && Background(p) < 0
  {
  }

  /** The bits after one parameter: they mean what the parameter says. */
  method SelectOne(a: bv32, p: nat) returns (r: bv32)
    requires AttributeOk(a)
    ensures AttributeOk(r) && StyleOf(r) == Selected(StyleOf(a), p)
  {
    hide Foreground, Background, Nibble, StyleOf, AttributeOk, WithBit, WithoutBit, WithForeground, WithBackground;
    r := a;
    Default();
    BoldOn(a);
    BoldOff(a);
    UnderlineOn(a);
    UnderlineOff(a);
    ReversedOn(a);
    ReversedOff(a);
    match p {
      case 0 => r := DEFAULT;
      case 1 => r := WithBit(r, INTENSITY);
      case 4 => r := WithBit(r, UNDERLINE);
      case 7 => r := WithBit(r, REVERSED);
      case 22 => r := WithoutBit(r, INTENSITY);
      case 24 => r := WithoutBit(r, UNDERLINE);
      case 27 => r := WithoutBit(r, REVERSED);
      case _ =>
    }
    Colors(p);
    if Foreground(p) >= 0 {
      NibbleBits(Foreground(p));
      ForegroundStyle(r, Nibble(Foreground(p)));
      r := WithForeground(r, Nibble(Foreground(p)));
    }
    if Background(p) >= 0 {
      NibbleBits(Background(p));
      BackgroundStyle(r, Nibble(Background(p)));
      r := WithBackground(r, Nibble(Background(p)));
    }
  }

  lemma AllSelectedMore(st: Style, ps: seq<nat>, p: nat)
    ensures AllSelected(st, ps + [p]) == Selected(AllSelected(st, ps), p)
  {
    assert (ps + [p])[..|ps|] == ps;
  }

  function Drop(ps: seq<nat>, n: nat): seq<nat>
  {
    if n < |ps| then ps[n..] else []
  }

  predicate IsExtended(p: nat)
  {
    p == 38 || p == 48
  }

  /** How many parameters the loop jumps over behind an extended color. */
  function Jump(ps: seq<nat>): (n: nat)
    requires ps != []
  {
    if !IsExtended(ps[0]) || |ps| == 1 then 0
    else
      var n := if ps[1] == 2 then 4 else 0;
      if n + 1 < |ps| && ps[n + 1] == 5 then n + 2 else n
  }

  /** The parameters of CSI m that the loop looks at. */
  function Applied(ps: seq<nat>): (r: seq<nat>)
    decreases |ps|
  {
    if ps == [] then [] else [ps[0]] + Applied(Drop(ps, Jump(ps) + 1))
  }

  ghost predicate IsSubsequence(a: seq<nat>, b: seq<nat>)
    decreases |b|
  {
    a == [] || (b != [] && ((a[0] == b[0] && IsSubsequence(a[1..], b[1..])) || IsSubsequence(a, b[1..])))
  }

  lemma {:induction false} SubsequenceOfMore(a: seq<nat>, b: seq<nat>, n: nat)
    requires IsSubsequence(a, Drop(b, n))
    ensures IsSubsequence(a, b)
    decreases n
  {
    if n > 0 && b != [] {
      assert Drop(b, n) == Drop(b[1..], n - 1);
      SubsequenceOfMore(a, b[1..], n - 1);
    }
  }

  /** Parameters may be left out, but they stay in order. */
  lemma {:induction false} AppliedInOrder(ps: seq<nat>)
    ensures IsSubsequence(Applied(ps), ps)
    decreases |ps|
  {
    if ps != [] {
      var rest := Drop(ps, Jump(ps) + 1);
      AppliedInOrder(rest);
      assert rest == Drop(ps[1..], Jump(ps));
      SubsequenceOfMore(Applied(rest), ps[1..], Jump(ps));
      assert Applied(ps)[1..] == Applied(rest);
    }
  }

  /** Without extended colors all parameters apply. */
  lemma {:induction false} AllApplied(ps: seq<nat>)
    requires forall k | 0 <= k < |ps| :: !IsExtended(ps[k])
    ensures Applied(ps) == ps
    decreases |ps|
  {
    if ps != [] {
      assert Drop(ps, 1) == ps[1..];
      AllApplied(ps[1..]);
    }
  }

  lemma ColorJump(c: nat, color: seq<nat>, rest: seq<nat>)
    requires IsExtended(c) && ((|color| == 4 && color[0] == 2) || (|color| == 2 && color[0] == 5))
    ensures var ps := [c] + color + rest;
            Drop(ps, Jump(ps) + 1) == if |color| == 4 && rest != [] && rest[0] == 5 then Drop(rest, 2) else rest
  {
    var ps := [c] + color + rest;
    assert ps[0] == c && ps[1] == color[0] && |ps| == 1 + |color| + |rest|;
    assert rest != [] ==> ps[1 + |color|] == rest[0];
    assert ps[1 + |color|..] == rest;
    assert |rest| >= 2 ==> ps[1 + |color| + 2..] == rest[2..];
  }

  lemma ExtendedSelectsNothing(st: Style, c: nat)
    requires IsExtended(c)
    ensures Selected(st, c) == st
  {
  }

  lemma AppliedIs(ps: seq<nat>)
    requires ps != []
    ensures Applied(ps) == [ps[0]] + Applied(Drop(ps, Jump(ps) + 1))
  {
  }

  lemma {:induction false} SelectedFirst(st: Style, p: nat, ps: seq<nat>)
    ensures AllSelected(st, [p] + ps) == AllSelected(Selected(st, p), ps)
    decreases |ps|
  {
    if ps == [] {
      AllSelectedMore(st, [], p);
    } else {
      var last := |ps| - 1;
      SelectedFirst(st, p, ps[..last]);
      assert ([p] + ps)[..|ps|] == [p] + ps[..last];
    }
  }

  /** An extended color is ignored, whole: the parameters behind it have their effect.  But when a color of three
      numbers is followed by a 5, the 5 and the next parameter are taken for a color too. */
  lemma ColorIgnored(st: Style, c: nat, color: seq<nat>, rest: seq<nat>)
    requires IsExtended(c) && ((|color| == 4 && color[0] == 2) || (|color| == 2 && color[0] == 5))
    ensures var behind := if |color| == 4 && rest != [] && rest[0] == 5 then Drop(rest, 2) else rest;
            AllSelected(st, Applied([c] + color + rest)) == AllSelected(st, Applied(behind))
  {
    hide AllSelected, Applied, Jump, Selected;
    var ps := [c] + color + rest;
    ColorJump(c, color, rest);
    AppliedIs(ps);
    SelectedFirst(st, c, Applied(Drop(ps, Jump(ps) + 1)));
    ExtendedSelectsNothing(st, c);
  }

  /** Such parameters: the last one, bold, is lost. */
  lemma BoldLost(st: Style)
    ensures AllSelected(st, Applied([38, 2, 10, 20, 30, 5, 1])) == st
    ensures AllSelected(st, [1]).bold
  {
    var rest := [5, 1];
    assert [38] + [2, 10, 20, 30] + rest == [38, 2, 10, 20, 30, 5, 1];
    ColorIgnored(st, 38, [2, 10, 20, 30], rest);
    SelectedFirst(st, 1, []);
  }

  // The end of the loop's body: the position after it.  Where it looks behind the last parameter, the loop ends anyway.
  method SkipColor(parameters: seq<nat>, i: nat) returns (j: nat)
    requires i < |parameters|
    ensures Drop(parameters, j + 1) == Drop(parameters, i + Jump(Drop(parameters, i)) + 1)
  {
    ghost var here := Drop(parameters, i);
    assert forall k | 0 <= k < |here| :: here[k] == parameters[i + k];
    assert |here| == |parameters| - i;
    j := i;
    var p := parameters[i];
    if p == 38 || p == 48 {
      if j + 1 < |parameters| {
        if parameters[j + 1] == 2 {
          j := j + 4;
        }
        var next: nat := *;
        if j + 1 < |parameters| {
          next := parameters[j + 1];
        }
        if next == 5 {
          j := j + 2;
        }
      }
    }
  }

  lemma NothingApplied()
    ensures Applied([]) == []
  {
  }

  lemma AppliedFrom(applied: seq<nat>, p: nat, ps: seq<nat>, i: nat, j: nat)
    requires i < |ps| && p == ps[i] && Drop(ps, j) == Drop(ps, i + Jump(Drop(ps, i)) + 1)
    ensures Drop(Drop(ps, i), Jump(Drop(ps, i)) + 1) == Drop(ps, j)
    ensures applied + ([p] + Applied(Drop(ps, j))) == applied + [p] + Applied(Drop(ps, j))
  {
    hide Applied, Jump;
  }

  lemma NoneSelected(st: Style)
    ensures AllSelected(st, []) == st
  {
  }

  /** CSI m.  The parameters apply one after the other, but an extended color makes the loop jump ahead over some of
      them.  Where it looks at a parameter behind the last one, it may find anything: that makes no difference. */
  method SelectGraphics(a: bv32, given: seq<nat>) returns (r: bv32)
    requires AttributeOk(a)
    ensures AttributeOk(r) && StyleOf(r) == AllSelected(StyleOf(a), Applied(if given == [] then [0] else given))
  {
    hide StyleOf, AttributeOk, Selected, AllSelected, Applied, Jump;
    var parameters := if given == [] then [0] else given;
    ghost var applied := [];
    assert Applied([]) == [] by { NothingApplied(); }
    assert Drop(parameters, 0) == parameters;
    r := a;
    NoneSelected(StyleOf(a));
    var i := 0;
    while i < |parameters|
      invariant 0 <= i && AttributeOk(r) && StyleOf(r) == AllSelected(StyleOf(a), applied)
      invariant applied + Applied(Drop(parameters, i)) == Applied(parameters)
    {
      var p := parameters[i];
      ghost var here := Drop(parameters, i);
      AllSelectedMore(StyleOf(a), applied, p);
      r := SelectOne(r, p);
      var j := SkipColor(parameters, i);
      AppliedIs(here);
      AppliedFrom(applied, p, parameters, i, j + 1);
      i := j + 1;
      applied := applied + [p];
    }
    assert applied + [] == applied;
  }

  /** The eight colors and the eight bright ones behind them, for text and for the background. */
  lemma ColorsAre(st: Style, k: nat)
    requires k < 8
    ensures Selected(st, 30 + k) == st.(fg := k as bv32) && Selected(st, 90 + k) == st.(fg := (8 + k) as bv32)
    ensures Selected(st, 40 + k) == st.(bg := k as bv32) && Selected(st, 100 + k) == st.(bg := (8 + k) as bv32)
    ensures Selected(st, 39) == st.(fg := 7) && Selected(st, 49) == st.(bg := 0)
  {
  }

  /** The bits say nothing but the style; red on blue in bold is the word 0x44E00000. */
  lemma StyleDetermines(a: bv32, b: bv32)
    requires AttributeOk(a) && AttributeOk(b) && StyleOf(a) == StyleOf(b)
    ensures a == b
    ensures StyleOf(0x44E0_0000) == Style(true, false, false, 1, 4)
  {
  }
}
