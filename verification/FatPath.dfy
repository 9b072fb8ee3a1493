/** fill_path_buffer of common/fat.c: a path name, read one character at a time, becomes a list of directory
    entries in 8.3 form.
 */
module FatPaths {
  // ----- What a path name means

  /** A name of the path in upper case, and whether a slash followed it. */
  datatype Part = Part(text: string, isDir: bool)

  datatype Scan = Fail | Done(parts: seq<Part>)

  predicate Legal(c: char)
  {
    '!' <= c <= '~' && c !in "<>:\"\\|?*"
  }

  function UpperChar(c: char): char
  {
    if 'a' <= c <= 'z' then (c as int - 32) as char else c
  }

  predicate IsLower(c: char)
  {
    'a' <= c <= 'z'
  }

  /** A character of a name is that of the path or, for a small letter, the one 32 places below it. */
  predicate RaisedFrom(u: char, c: char)
  {
    if IsLower(c) then u as int + 32 == c as int else u == c
  }

  lemma UpperIsRaised(c: char)
    ensures RaisedFrom(UpperChar(c), c)
  {
  }

  function Upper(s: string): (u: string)
    ensures |u| == |s|
  {
    seq(|s|, i requires 0 <= i < |s| => UpperChar(s[i]))
  }

  /** The number of characters before the first slash. */
  function FirstSlash(s: string): (n: nat)
    ensures n <= |s| && '/' !in s[..n] && (n < |s| ==> s[n] == '/')
  {
    if s == [] || s[0] == '/' then 0
    else
      assert s[..FirstSlash(s[1..]) + 1] == [s[0]] + s[1..][..FirstSlash(s[1..])];
      FirstSlash(s[1..]) + 1
  }

  /** A name is added, except that an empty one and "." do nothing and ".." takes the last one away. */
  function Push(parts: seq<Part>, text: string, isDir: bool): (r: seq<Part>)
    ensures |r| <= |parts| + 1
  {
    if text == "" || text == "." then parts
    else if text == ".." then (if parts == [] then [] else parts[..|parts| - 1])
    else parts + [Part(Upper(text), isDir)]
  }

  ghost predicate Acceptable(parts: seq<Part>, text: string)
  {
    |parts| < 255 && |text| <= 12 && forall i | 0 <= i < |text| :: Legal(text[i])
  }

  /** The names of a path, split at the slashes, on top of those that are there already. */
  ghost function ScanFrom(parts: seq<Part>, s: string): (r: Scan)
    decreases |s|
  {
    if s == [] then Done(parts)
    else
      var n := FirstSlash(s);
      if !Acceptable(parts, s[..n]) then Fail
      else if n == |s| then Done(Push(parts, s, false))
      else ScanFrom(Push(parts, s[..n], true), s[n + 1..])
  }

  // ----- The 8.3 form

  function Fill(c: char, n: nat): (s: string)
    ensures |s| == n && forall i | 0 <= i < n :: s[i] == c
  {
    seq(n, i => c)
  }

  // ----- The buffer

  datatype Slot = Slot(name: string, length: nat, isDir: bool)

  const NUL: char := '\0'
  const EMPTY: Slot := Slot(Fill(NUL, 12), 0, false)

  const RESERVED: seq<string> := [
    "AUX", "COM1", "COM2", "COM3", "COM4", "COM5", "COM6", "COM7", "COM8", "COM9", "CON",
    "LPT1", "LPT2", "LPT3", "LPT4", "LPT5", "LPT6", "LPT7", "LPT8", "LPT9", "NUL", "PRN"
  ]

  /** The text and blanks behind it. */
  function Blanked(text: string, n: nat): (s: string)
    requires |text| <= n
    ensures |s| == n
  {
    text + Fill(' ', n - |text|)
  }

  /** The place of the last period, the first character excepted; 0 if there is none. */
  function LastDot(text: string): (j: nat)
    ensures j == 0 || (j < |text| && text[j] == '.')
    ensures forall i | j < i < |text| && 0 < i :: text[i] != '.'
  {
    if |text| <= 1 then 0
    else if text[|text| - 1] == '.' then |text| - 1
    else LastDot(text[..|text| - 1])
  }

  function Base(text: string): string
  {
    if LastDot(text) == 0 then text else text[..LastDot(text)]
  }

  function Extension(text: string): string
  {
    if LastDot(text) == 0 then "" else text[LastDot(text) + 1..]
  }

  /** A name of at most eight characters and an extension of at most three, no device, not only periods. */
  ghost predicate Named(text: string)
  {
    && |Base(text)| <= 8 && |Extension(text)| <= 3
    && (exists i :: 0 <= i < |Base(text)| && Base(text)[i] != '.')
    && !(Extension(text) == "" && Base(text) in RESERVED)
  }

  ghost function ShortName(text: string): (s: string)
    requires Named(text)
    ensures |s| == 11
  {
    Blanked(Base(text), 8) + Blanked(Extension(text), 3)
  }

  ghost predicate SlotOf(slot: Slot, text: string, isDir: bool)
  {
    |text| <= 12 && slot == Slot(text + Fill(NUL, 12 - |text|), |text|, isDir)
  }

  /** The state of the scanner inside of a name. */
  function Mode(text: string): int
  {
    if text == "" then 0 else if text == "." then 1 else if text == ".." then 2 else 3
  }

  lemma ModeMore(text: string, c: char)
    ensures Mode(text + [c]) == if text == "" && c == '.' then 1 else if text == "." && c == '.' then 2 else 3
  {
    var more := text + [c];
    assert more[|text|] == c && |more| == |text| + 1;
    if |text| == 1 {
      assert more[0] == text[0];
      assert text[0] == '.' ==> text == ".";
    }
  }

  lemma UpperMore(text: string, c: char)
    ensures Upper(text + [c]) == Upper(text) + [UpperChar(c)]
  {
  }

  class PathBuffer {
    const path: array<Slot>
    var pathEntries: nat

    predicate Valid()
    {
      path.Length == 256
    }

    constructor ()
      ensures Valid() && fresh(path) && pathEntries == 0
    {
      path := new Slot[256](_ => EMPTY);
      pathEntries := 0;
    }

    /** The first slots hold these parts. */
    ghost predicate Hold(parts: seq<Part>)
      reads path
      requires Valid()
    {
      |parts| <= 255 && forall k | 0 <= k < |parts| :: SlotOf(path[k], parts[k].text, parts[k].isDir)
    }

    // The checks of the first loop, and the character behind the name so far.
    method AddChar(c: char, entries: nat, ghost text: string) returns (ok: bool, u: char)
      requires Valid() && entries <= 255 && SlotOf(path[entries], Upper(text), false)
      modifies path
      ensures ok <==> (c == '/' || Legal(c)) && entries < 255 && (c != '/' ==> |text| < 12)
      ensures ok ==> u == UpperChar(c) && RaisedFrom(u, c)
      ensures forall k | 0 <= k < 256 && k != entries :: path[k] == old(path[k])
      ensures ok ==> SlotOf(path[entries], Upper(if c == '/' then text else text + [c]), false)
    {
      var length := path[entries].length;
      u := c;
      if c <= ' ' || c > '~' || entries >= 255 {
        return false, u;
      }
      if 'a' <= u <= 'z' {
        u := (u as int - 32) as char;
      }
      if u == '<' || u == '>' || u == ':' || u == '"' {
        return false, u;
      }
      if u == '\\' || u == '|' || u == '?' || u == '*' {
        return false, u;
      }
      if u != '/' {
        if length > 11 {
          return false, u;
        }
        path[entries] := Slot(path[entries].name[length := u], length + 1, path[entries].isDir);
        UpperMore(text, c);
      }
      return true, u;
    }

    // One round of the first loop: `last` is that the string ends behind c.
    method ScanChar(c: char, last: bool, entries: nat, state: int, ghost parts: seq<Part>, ghost text: string)
      returns (ok: bool, entries': nat, state': int)
      requires Valid() && Hold(parts) && entries == |parts|
      requires SlotOf(path[entries], Upper(text), false) && state == Mode(text)
      modifies path
      ensures ok <==> (c == '/' || Legal(c)) && |parts| < 255 && (c != '/' ==> |text| < 12)
      ensures ok && c != '/' && !last ==>
                && entries' == entries && Hold(parts)
                && SlotOf(path[entries], Upper(text + [c]), false) && state' == Mode(text + [c])
      ensures ok && (c == '/' || last) ==>
                var after := Push(parts, if c == '/' then text else text + [c], c == '/');
                && entries' == |after| && Hold(after)
                && (!last ==> SlotOf(path[entries'], "", false) && state' == Mode(""))
    {
      hide Legal, Upper;
      entries', state' := entries, state;
      var u;
      ok, u := AddChar(c, entries, text);
      if !ok {
        return;
      }
      var length := path[entries].length;
      ModeMore(text, c);
      if state' == 0 && u == '.' {
        state' := 1;
        if !last {
          return true, entries', state';
        }
        u := '/';
      }
      if state' == 1 && u == '/' {
        path[entries'] := EMPTY;
        return true, entries', 0;
      }
      if state' == 1 && u == '.' {
        state' := 2;
        if !last {
          return true, entries', state';
        }
        u := '/';
      }
      if state' == 2 && u == '/' {
        path[entries'] := EMPTY;
        if entries' > 0 {
          entries' := entries' - 1;
          path[entries'] := EMPTY;
        }
        return true, entries', 0;
      }
      state' := 3;
      if u == '/' {
        if length > 0 {
          path[entries'] := path[entries'].(isDir := true);
          entries' := entries' + 1;
          path[entries'] := EMPTY;
        }
        return true, entries', 0;
      }
      if last {
        entries' := entries' + 1;
      }
      return true, entries', state';
    }
  }

  // ----- The first loop

  /** The scanner agrees with the meaning of the name: what is left of it goes on top of the parts so far. */
  ghost predicate OnTrack(name: string, parts: seq<Part>, text: string, i: nat)
  {
    && |text| <= i <= |name| && name[i - |text|..i] == text && '/' !in text
    && |parts| <= 255 && |text| <= 12 && (forall k | 0 <= k < |text| :: Legal(text[k]))
    && ScanFrom([], name) == ScanFrom(parts, name[i - |text|..])
  }

  lemma {:induction false} SlashAfter(s: string, n: nat)
    requires n <= |s| && '/' !in s[..n] && (n < |s| ==> s[n] == '/')
    ensures FirstSlash(s) == n
    decreases n
  {
    if n > 0 {
      assert s[0] == s[..n][0];
      assert s[1..][..n - 1] == s[..n][1..];
      SlashAfter(s[1..], n - 1);
    }
  }

  /** A character inside of a name. */
  lemma TrackMore(name: string, parts: seq<Part>, text: string, i: nat)
    requires OnTrack(name, parts, text, i) && i < |name| && name[i] != '/' && Legal(name[i]) && |text| < 12
    ensures OnTrack(name, parts, text + [name[i]], i + 1)
  {
    hide ScanFrom;
    assert name[i - |text|..i + 1] == text + [name[i]];
  }

  /** The end of a name. */
  lemma TrackEnd(name: string, parts: seq<Part>, text: string, i: nat)
    requires OnTrack(name, parts, text, i) && i < |name| && (name[i] == '/' || i + 1 == |name|) && |parts| < 255
    requires name[i] != '/' ==> Legal(name[i]) && |text| < 12
    ensures var full := if name[i] == '/' then text else text + [name[i]];
            OnTrack(name, Push(parts, full, name[i] == '/'), "", i + 1)
  {
    hide Push, FirstSlash;
    var s := name[i - |text|..];
    var full := if name[i] == '/' then text else text + [name[i]];
    assert s[..|full|] == full;
    SlashAfter(s, |full|);
    if name[i] == '/' {
      assert s[|full| + 1..] == name[i + 1..];
    } else {
      assert s == full;
      assert name[i + 1..] == "";
    }
  }

  /** A character that stops the scanner is one that the name may not have there. */
  lemma TrackFails(name: string, parts: seq<Part>, text: string, i: nat)
    requires OnTrack(name, parts, text, i) && i < |name|
    requires !(name[i] == '/' || Legal(name[i])) || |parts| >= 255 || (name[i] != '/' && |text| >= 12)
    ensures ScanFrom([], name).Fail?
  {
    hide Push;
    var s := name[i - |text|..];
    var n := FirstSlash(s);
    assert s[|text|] == name[i];
    assert forall k | 0 <= k < |text| :: s[k] == text[k];
    if name[i] != '/' {
      assert n != |text|;
      assert s[..n][|text|] == name[i];
    }
  }

  // ----- The second loop

  lemma LastDotUnique(text: string, j: nat)
    requires j == 0 || (j < |text| && text[j] == '.')
    requires forall i | j < i < |text| && 0 < i :: text[i] != '.'
    ensures j == LastDot(text)
  {
    var k := LastDot(text);
    assert k == 0 || text[k] == '.';
  }

  /** The characters that a scanned name consists of. */
  ghost predicate Plain(text: string)
  {
    forall i | 0 <= i < |text| :: '!' <= text[i] <= '~'
  }

  lemma ReservedPlain(d: string)
    requires d in RESERVED
    ensures 3 <= |d| <= 4 && Plain(d)
  {
  }

  /** Starting with a device name and a blank is being that device name. */
  lemma StartsWithDevice(base: string, d: string)
    requires d in RESERVED && |base| <= 8 && Plain(base)
    ensures Blanked(base, 8)[..|d| + 1] == d + " " <==> base == d
  {
    hide RESERVED;
    ReservedPlain(d);
    var full := Blanked(base, 8);
    assert forall k | 0 <= k < |base| :: full[k] == base[k] != ' ';
    if full[..|d| + 1] == d + " " {
      assert full[..|d| + 1][|d|] == (d + " ")[|d|] == ' ';
      assert full[|d|] == ' ';
      assert |base| <= |d|;
      forall i | 0 <= i < |d|
        ensures i < |base| && base[i] == d[i]
      {
        assert full[..|d| + 1][i] == (d + " ")[i] == d[i];
      }
      assert d[|d| - 1] != ' ';
      assert |base| == |d|;
      assert base == d;
    }
  }

  lemma ExtensionEmpty(ext: string)
    requires |ext| <= 3 && Plain(ext)
    ensures Blanked(ext, 3)[0] == ' ' <==> ext == ""
  {
  }

  /** check_reserved_name */
  method CheckReservedName(name: string, ghost base: string, ghost ext: string) returns (reserved: bool)
    requires |base| <= 8 && |ext| <= 3 && Plain(base) && Plain(ext)
    requires name == Blanked(base, 8) + Blanked(ext, 3) + [NUL]
    ensures reserved <==> ext == "" && base in RESERVED
  {
    hide RESERVED, Plain;
    assert name[8] == ' ' <==> ext == "" by {
      ExtensionEmpty(ext);
    }
    if name[8] != ' ' {
      return false;
    }
    for i := 0 to |RESERVED|
      invariant forall k | 0 <= k < i :: base != RESERVED[k]
    {
      ReservedPlain(RESERVED[i]);
      StartsWithDevice(base, RESERVED[i]);
      assert name[..|RESERVED[i]| + 1] == Blanked(base, 8)[..|RESERVED[i]| + 1];
      if name[..|RESERVED[i]| + 1] == RESERVED[i] + " " {
        return true;
      }
    }
    return false;
  }

  // The period check of the second loop.
  method OnlyPeriods(name: string, ghost base: string) returns (only: bool)
    requires |base| <= 8 && Plain(base) && |name| == 12 && name[..8] == Blanked(base, 8)
    ensures only <==> !(exists i :: 0 <= i < |base| && base[i] != '.')
  {
    var j := 0;
    while true
      invariant 0 <= j < 8
      invariant forall i | 0 <= i < j && i < |base| :: base[i] == '.'
      decreases 8 - j
    {
      var c := name[j];
      assert c == Blanked(base, 8)[j];
      if c != ' ' && c != '.' {
        assert base[j] != '.';
        return false;
      }
      if j == 7 {
        return true;
      }
      j := j + 1;
    }
  }

  method BlankNuls(field: string) returns (name: string)
    requires |field| == 12
    ensures |name| == 12
    ensures forall i | 0 <= i < 11 :: name[i] == if field[i] == NUL then ' ' else field[i]
  {
    name := field;
    for j := 0 to 11
      invariant |name| == 12
      invariant forall i | 0 <= i < 11 :: name[i] == if i < j && field[i] == NUL then ' ' else field[i]
    {
      if name[j] == NUL {
        name := name[j := ' '];
      }
    }
  }

  lemma Arranged(text: string, name: string)
    requires |name| == 12 && name[11] == NUL && |Base(text)| <= 8 && |Extension(text)| <= 3
    requires forall i | 0 <= i < 8 :: name[i] == if i < |Base(text)| then Base(text)[i] else ' '
    requires forall i | 8 <= i < 11 :: name[i] == if i - 8 < |Extension(text)| then Extension(text)[i - 8] else ' '
    ensures name == Blanked(Base(text), 8) + Blanked(Extension(text), 3) + [NUL]
  {
    assert name[..8] == Blanked(Base(text), 8);
    assert name[8..11] == Blanked(Extension(text), 3);
    assert name == name[..8] + name[8..11] + [NUL];
  }

  // The first part of the second loop: the name and the extension to their places, blanks between them.
  method Arrange(field: string, length: nat, ghost text: string) returns (ok: bool, name: string)
    requires |text| <= 12 && Plain(text) && length == |text| && field == text + Fill(NUL, 12 - |text|)
    ensures ok <==> |Base(text)| <= 8 && |Extension(text)| <= 3
    ensures ok ==> name == Blanked(Base(text), 8) + Blanked(Extension(text), 3) + [NUL]
  {
    name := field;
    var j := 11;
    while j > 0
      invariant 0 <= j <= 11
      invariant forall i | j < i < 12 :: name[i] != '.'
    {
      if name[j] == '.' {
        break;
      }
      j := j - 1;
    }
    assert forall i | j < i < |text| && 0 < i :: text[i] == name[i];
    LastDotUnique(text, j);
    if j > 8 || (j == 0 && length > 8) {
      return false, name;
    }
    if j != 0 {
      if length - j > 4 {
        return false, name;
      }
      var e0, e1, e2 := name[j + 1], name[j + 2], name[j + 3];
      name := name[j := NUL][j + 1 := NUL][j + 2 := NUL][j + 3 := NUL];
      name := name[8 := e0][9 := e1][10 := e2];
    }
    name := BlankNuls(name);
    name := name[11 := NUL];
    Arranged(text, name);
    return true, name;
  }

  lemma PartsPlain(text: string)
    requires Plain(text)
    ensures Plain(Base(text)) && Plain(Extension(text))
  {
  }

  /** One round of the second loop. */
  method Format(field: string, length: nat, ghost text: string) returns (ok: bool, name: string)
    requires |text| <= 12 && Plain(text) && length == |text| && field == text + Fill(NUL, 12 - |text|)
    ensures ok <==> Named(text)
    ensures ok ==> name == ShortName(text) + [NUL]
  {
    hide Blanked, Base, Extension, Plain, RESERVED;
    ok, name := Arrange(field, length, text);
    if !ok {
      return;
    }
    PartsPlain(text);
    assert name[..8] == Blanked(Base(text), 8);
    var periods := OnlyPeriods(name, Base(text));
    if periods {
      return false, name;
    }
    var reserved := CheckReservedName(name, Base(text), Extension(text));
    return !reserved, name;
  }

  // ----- Upper case

  /** The text is a piece of the path, in capital letters. */
  ghost predicate PieceOf(text: string, name: string)
  {
    exists at: nat :: PieceAt(text, name, at)
  }

  ghost predicate PieceAt(text: string, name: string, at: nat)
  {
    at + |text| <= |name| && forall i | 0 <= i < |text| :: RaisedFrom(text[i], name[at + i])
  }

  ghost predicate AllPieces(parts: seq<Part>, name: string)
  {
    forall k | 0 <= k < |parts| :: PieceOf(parts[k].text, name)
  }

  lemma PushPieces(parts: seq<Part>, text: string, isDir: bool, name: string, from: nat)
    requires AllPieces(parts, name) && from + |text| <= |name| && name[from..from + |text|] == text
    ensures AllPieces(Push(parts, text, isDir), name)
  {
    hide UpperChar, RaisedFrom;
    var u := Upper(text);
    forall i | 0 <= i < |text|
      ensures RaisedFrom(u[i], name[from + i])
    {
      assert text[i] == name[from + i];
      UpperIsRaised(text[i]);
    }
    assert PieceAt(u, name, from);
    assert PieceOf(u, name);
  }

  lemma {:induction false} ScanPieces(parts: seq<Part>, name: string, from: nat)
    requires from <= |name| && AllPieces(parts, name) && ScanFrom(parts, name[from..]).Done?
    ensures AllPieces(ScanFrom(parts, name[from..]).parts, name)
    decreases |name| - from
  {
    hide AllPieces, Push, Legal;
    var s := name[from..];
    if s != [] {
      var n := FirstSlash(s);
      assert name[from..from + n] == s[..n];
      PushPieces(parts, s[..n], n < |s|, name, from);
      if n < |s| {
        assert s[n + 1..] == name[from + n + 1..];
        ScanPieces(Push(parts, s[..n], true), name, from + n + 1);
      } else {
        assert s[..n] == s;
      }
    }
  }

  lemma RaisedIsNotLower(u: char, c: char)
    requires RaisedFrom(u, c)
    ensures !IsLower(u)
  {
  }

  ghost predicate NoLower(text: string)
  {
    forall i | 0 <= i < |text| :: !IsLower(text[i])
  }

  lemma PieceHasNoLower(text: string, name: string)
    requires PieceOf(text, name)
    ensures NoLower(text)
  {
    var at: nat :| PieceAt(text, name, at);
    forall i | 0 <= i < |text|
      ensures !IsLower(text[i])
    {
      RaisedIsNotLower(text[i], name[at + i]);
    }
  }

  /** The names of a scan are pieces of the path in capital letters. */
  lemma ScannedIsUpper(name: string)
    requires ScanFrom([], name).Done?
    ensures AllPieces(ScanFrom([], name).parts, name)
    ensures forall k | 0 <= k < |ScanFrom([], name).parts| :: NoLower(ScanFrom([], name).parts[k].text)
  {
    hide NoLower, PieceOf;
    assert name[0..] == name;
    ScanPieces([], name, 0);
    forall k | 0 <= k < |ScanFrom([], name).parts|
      ensures NoLower(ScanFrom([], name).parts[k].text)
    {
      PieceHasNoLower(ScanFrom([], name).parts[k].text, name);
    }
  }

  /** The same letter, small or capital. */
  predicate SameLetter(c: char, d: char)
  {
    c == d || (IsLower(c) && RaisedFrom(d, c)) || (IsLower(d) && RaisedFrom(c, d))
  }

  ghost predicate SameLetters(s: string, t: string)
  {
    |s| == |t| && forall i | 0 <= i < |s| :: SameLetter(s[i], t[i])
  }

  lemma SameLetterFacts(c: char, d: char)
    requires SameLetter(c, d)
    ensures UpperChar(c) == UpperChar(d) && (Legal(c) <==> Legal(d)) && (c == '/' <==> d == '/') && (c == '.' <==> d == '.')
  {
  }

  lemma SameName(s: string, t: string)
    requires SameLetters(s, t)
    ensures Upper(s) == Upper(t)
    ensures (s == "." <==> t == ".") && (s == ".." <==> t == "..")
    ensures (forall i | 0 <= i < |s| :: Legal(s[i])) <==> (forall i | 0 <= i < |t| :: Legal(t[i]))
  {
    hide UpperChar, Legal;
    forall i | 0 <= i < |s|
      ensures UpperChar(s[i]) == UpperChar(t[i]) && (Legal(s[i]) <==> Legal(t[i])) && (s[i] == '.' <==> t[i] == '.')
    {
      SameLetterFacts(s[i], t[i]);
    }
  }

  lemma {:induction false} SameSlash(s: string, t: string)
    requires SameLetters(s, t)
    ensures FirstSlash(s) == FirstSlash(t)
    decreases |s|
  {
    if s != [] {
      SameLetterFacts(s[0], t[0]);
      SameSlash(s[1..], t[1..]);
    }
  }

  lemma SamePush(parts: seq<Part>, s: string, t: string, isDir: bool)
    requires SameLetters(s, t)
    ensures Push(parts, s, isDir) == Push(parts, t, isDir) && (Acceptable(parts, s) <==> Acceptable(parts, t))
  {
    hide Legal, Upper, SameLetter;
    SameName(s, t);
  }

  lemma {:induction false} SameScanFrom(parts: seq<Part>, s: string, t: string)
    requires SameLetters(s, t)
    ensures ScanFrom(parts, s) == ScanFrom(parts, t)
    decreases |s|
  {
    hide Push, Acceptable, SameLetter, FirstSlash;
    if s != [] {
      SameSlash(s, t);
      var n := FirstSlash(s);
      SamePush(parts, s[..n], t[..n], n < |s|);
      if n < |s| {
        SameScanFrom(Push(parts, s[..n], true), s[n + 1..], t[n + 1..]);
      } else {
        assert s[..n] == s && t[..n] == t;
      }
    }
  }

  /** Paths that differ only in the case of letters have the same names. */
  lemma CaseDoesNotMatter(name: string, other: string)
    requires SameLetters(name, other)
    ensures ScanFrom([], name) == ScanFrom([], other)
  {
    SameScanFrom([], name, other);
  }

  // ----- What the 8.3 form is

  /** A name is its base and, behind the last period, an extension without one; a leading period is of the base. */
  lemma NameSplits(text: string)
    ensures LastDot(text) == 0 ==> Base(text) == text && Extension(text) == ""
    ensures LastDot(text) > 0 ==> Base(text) != "" && text == Base(text) + "." + Extension(text)
    ensures '.' !in Extension(text)
  {
  }

  predicate IsDevice(base: string)
  {
    || base in {"AUX", "CON", "NUL", "PRN"}
    || (|base| == 4 && (base[..3] == "COM" || base[..3] == "LPT") && '1' <= base[3] <= '9')
  }

  lemma ReservedIsDevice(i: nat)
    requires i < |RESERVED|
    ensures IsDevice(RESERVED[i])
  {
    var d := RESERVED[i];
    if |d| == 4 {
      assert d[..3] == [d[0], d[1], d[2]];
    }
  }

  /** The device names: four of three letters, and two with a number behind. */
  lemma ReservedIs(base: string)
    ensures base in RESERVED <==> IsDevice(base)
  {
    if base in RESERVED {
      var i :| 0 <= i < |RESERVED| && RESERVED[i] == base;
      ReservedIsDevice(i);
    }
    if IsDevice(base) && |base| == 4 {
      var i := base[3] as int - '1' as int + if base[..3] == "COM" then 1 else 11;
      assert base == base[..3] + [base[3]];
      assert RESERVED[i] == RESERVED[i][..3] + [RESERVED[i][3]];
      assert RESERVED[i][..3] == base[..3] && RESERVED[i][3] == base[3];
    }
    if base in {"AUX", "CON", "NUL", "PRN"} {
      assert RESERVED[0] == "AUX" && RESERVED[10] == "CON" && RESERVED[20] == "NUL" && RESERVED[21] == "PRN";
    }
  }

  lemma BlanksHaveNoLower(text: string)
    requires NoLower(text) && Named(text)
    ensures NoLower(ShortName(text) + [NUL])
  {
  }

  // ----- fill_path_buffer

  /** What the names of the scan give as directory entries. */
  ghost predicate AllNamed(parts: seq<Part>)
  {
    forall k | 0 <= k < |parts| :: Named(parts[k].text)
  }

  ghost predicate SlotDone(slot: Slot, part: Part)
  {
    Named(part.text) && slot.name == ShortName(part.text) + [NUL] && slot.isDir == part.isDir
  }

  ghost predicate Finished(slots: seq<Slot>, parts: seq<Part>)
  {
    |parts| <= |slots| && forall k | 0 <= k < |parts| :: SlotDone(slots[k], parts[k])
  }

  ghost predicate PartsPlainTo(parts: seq<Part>)
  {
    forall k | 0 <= k < |parts| :: |parts[k].text| <= 12 && Plain(parts[k].text)
  }

  lemma PushPlain(parts: seq<Part>, text: string, isDir: bool)
    requires PartsPlainTo(parts) && |text| <= 12 && forall k | 0 <= k < |text| :: Legal(text[k])
    ensures PartsPlainTo(Push(parts, text, isDir))
  {
    var u := Upper(text);
    forall i | 0 <= i < |u|
      ensures '!' <= u[i] <= '~'
    {
      assert Legal(text[i]);
    }
  }

  lemma TrackStart(name: string)
    ensures OnTrack(name, [], "", 0) && PartsPlainTo([]) && Upper("") == ""
  {
    assert name[0..] == name;
  }

  lemma TrackDone(name: string, parts: seq<Part>)
    requires OnTrack(name, parts, "", |name|)
    ensures ScanFrom([], name) == Done(parts)
  {
    assert name[|name|..] == "";
  }

  // The first loop.
  method ScanName(b: PathBuffer, name: string) returns (ok: bool, entries: nat, ghost parts: seq<Part>)
    requires b.Valid()
    modifies b.path
    ensures ok <==> ScanFrom([], name).Done?
    ensures ok ==> ScanFrom([], name) == Done(parts) && entries == |parts| && b.Hold(parts) && PartsPlainTo(parts)
    ensures ok ==> AllPieces(parts, name) && forall k | 0 <= k < |parts| :: NoLower(parts[k].text)
  {
    hide AllPieces, NoLower;
    hide ScanFrom, Push, Legal, Upper, FirstSlash;
    var state := 0;
    entries, parts := 0, [];
    b.path[0] := EMPTY;
    ghost var text := "";
    var i := 0;
    TrackStart(name);
    while i < |name|
      invariant 0 <= i <= |name| && OnTrack(name, parts, text, i) && (i == |name| ==> text == "")
      invariant entries == |parts| && b.Hold(parts) && PartsPlainTo(parts)
      invariant i < |name| ==> SlotOf(b.path[entries], Upper(text), false) && state == Mode(text)
    {
      var c := name[i];
      ok, entries, state := b.ScanChar(c, i + 1 == |name|, entries, state, parts, text);
      if !ok {
        TrackFails(name, parts, text, i);
        return false, 0, parts;
      }
      if c == '/' || i + 1 == |name| {
        TrackEnd(name, parts, text, i);
        var full := if c == '/' then text else text + [c];
        PushPlain(parts, full, c == '/');
        parts := Push(parts, full, c == '/');
        text := "";
        assert Upper("") == "";
      } else {
        TrackMore(name, parts, text, i);
        text := text + [c];
      }
      i := i + 1;
    }
    TrackDone(name, parts);
    ScannedIsUpper(name);
    return true, entries, parts;
  }

  /** fill_path_buffer: it succeeds exactly on names whose parts are all fit for a directory, and then the
      buffer holds them in 8.3 form. */
  method FillPathBuffer(b: PathBuffer, name: string) returns (ok: bool)
    requires b.Valid()
    modifies b, b.path
    ensures ok <==> match ScanFrom([], name) case Fail => false case Done(parts) => parts != [] && AllNamed(parts)
    ensures ok ==> b.pathEntries == |ScanFrom([], name).parts| && Finished(b.path[..], ScanFrom([], name).parts)
    ensures ok ==> b.pathEntries <= 255 && forall k | 0 <= k < b.pathEntries :: NoLower(b.path[k].name)
    ensures !ok ==> b.pathEntries == 0
  {
    hide AllPieces, NoLower;
    hide ScanFrom, Plain, ShortName, Named;
    b.pathEntries := 0;
    var scanned, entries;
    ghost var parts;
    scanned, entries, parts := ScanName(b, name);
    if !scanned {
      return false;
    }
    for i := 0 to entries
      invariant b.pathEntries == 0
      invariant forall k | 0 <= k < i :: SlotDone(b.path[k], parts[k]) && NoLower(b.path[k].name)
      invariant forall k | i <= k < entries :: SlotOf(b.path[k], parts[k].text, parts[k].isDir)
    {
      var good, formatted := Format(b.path[i].name, b.path[i].length, parts[i].text);
      if !good {
        assert !Named(parts[i].text);
        return false;
      }
      b.path[i] := b.path[i].(name := formatted);
      BlanksHaveNoLower(parts[i].text);
    }
    b.pathEntries := entries;
    return entries != 0;
  }

  // ----- What the parts mean

  lemma UpIsAcceptable(parts: seq<Part>)
    requires |parts| < 255
    ensures Acceptable(parts, "..")
  {
  }

  /** The characters of names: those of ASCII that are printed, but for the blank and eight others. */
  lemma LegalIs(c: char)
    ensures Legal(c) <==>
              0x21 <= c as int <= 0x7E && c as int !in {0x22, 0x2A, 0x3A, 0x3C, 0x3E, 0x3F, 0x5C, 0x7C}
  {
  }

  lemma EmptyCancels(parts: seq<Part>, rest: string)
    requires |parts| < 255
    ensures ScanFrom(parts, "/" + rest) == ScanFrom(parts, rest)
  {
    var s := "/" + rest;
    SlashAfter(s, 0);
    assert s[..0] == "" && s[1..] == rest;
  }

  lemma DotCancels(parts: seq<Part>, rest: string)
    requires |parts| < 255
    ensures ScanFrom(parts, "./" + rest) == ScanFrom(parts, rest)
  {
    var s := "./" + rest;
    assert s[..1] == ".";
    SlashAfter(s, 1);
    assert Acceptable(parts, ".");
    assert s[2..] == rest;
  }

  /** An empty name and "." do nothing. */
  lemma CurrentCancels(parts: seq<Part>, rest: string)
    requires |parts| < 255
    ensures ScanFrom(parts, "/" + rest) == ScanFrom(parts, rest) == ScanFrom(parts, "./" + rest)
  {
    hide ScanFrom;
    EmptyCancels(parts, rest);
    DotCancels(parts, rest);
  }

  /** A name and ".." behind it cancel out. */
  lemma ParentCancels(parts: seq<Part>, text: string, rest: string)
    requires Acceptable(parts, text) && |parts| < 254 && '/' !in text && text != "" && text != "." && text != ".."
    ensures ScanFrom(parts, text + "/../" + rest) == ScanFrom(parts, rest)
  {
    hide Acceptable;
    var s := text + "/../" + rest;
    assert s[..|text|] == text;
    SlashAfter(s, |text|);
    assert s[|text| + 1..] == "../" + rest;
    var up := "../" + rest;
    assert up[..2] == "..";
    SlashAfter(up, 2);
    assert up[3..] == rest;
    var more := parts + [Part(Upper(text), true)];
    assert more[..|more| - 1] == parts;
    UpIsAcceptable(more);
  }

  lemma OneName(s: string)
    requires '/' !in s && Acceptable([], s) && s != "" && s != "." && s != ".."
    ensures ScanFrom([], s) == Done([Part(Upper(s), false)])
  {
    hide Acceptable, Upper;
    assert s[..|s|] == s;
    SlashAfter(s, |s|);
  }

  lemma ReadmeScans()
    ensures ScanFrom([], "readme.txt") == Done([Part("README.TXT", false)])
  {
    hide ScanFrom;
    var s := "readme.txt";
    OneName(s);
    assert Upper(s) == "README.TXT";
  }

  lemma ReadmeSplits()
    ensures Base("README.TXT") == "README" && Extension("README.TXT") == "TXT"
  {
    var s := "README.TXT";
    LastDotUnique(s, 6);
    assert s[..6] == "README" && s[7..] == "TXT";
  }

  lemma ReadmeNamed()
    ensures Named("README.TXT") && ShortName("README.TXT") == "README  TXT"
  {
    hide Base, Extension, RESERVED;
    ReadmeSplits();
    assert "README"[0] == 'R';
    assert Blanked("README", 8) == "README  " && Blanked("TXT", 3) == "TXT";
  }

  /** An example: readme.txt is looked for as README in eight places and TXT in three, and con is no name. */
  lemma ReadmeIs()
    ensures ScanFrom([], "readme.txt") == Done([Part("README.TXT", false)])
    ensures Named("README.TXT") && ShortName("README.TXT") == "README  TXT" && !Named(Upper("con"))
  {
    hide ScanFrom, ShortName, RESERVED;
    ReadmeScans();
    ReadmeNamed();
    assert Upper("con") == "CON";
    LastDotUnique("CON", 0);
    ReservedIs("CON");
  }

  /** The path that the parts spell out. */
  ghost function Spelled(parts: seq<Part>): string
  {
    if parts == [] then "" else parts[0].text + (if parts[0].isDir then "/" else "") + Spelled(parts[1..])
  }

  /** Parts as a scan leaves them: names in upper case, with a slash behind each but perhaps the last. */
  ghost predicate Canonical(parts: seq<Part>)
  {
    forall k | 0 <= k < |parts| ::
      && var text := parts[k].text;
      && text != "" && text != "." && text != ".." && '/' !in text && Upper(text) == text
      && |text| <= 12 && (forall i | 0 <= i < |text| :: Legal(text[i]))
      && (k < |parts| - 1 ==> parts[k].isDir)
  }

  /** Scanning what such parts spell out gives the same parts again. */
  lemma {:induction false} SpelledScans(before: seq<Part>, parts: seq<Part>)
    requires Canonical(parts) && |before| + |parts| <= 255
    ensures ScanFrom(before, Spelled(parts)) == Done(before + parts)
    decreases |parts|
  {
    if parts != [] {
      var p, rest := parts[0], Spelled(parts[1..]);
      var s := Spelled(parts);
      var more := before + [p];
      assert before + parts == more + parts[1..];
      assert s[..|p.text|] == p.text;
      if p.isDir {
        SlashAfter(s, |p.text|);
        assert s[|p.text| + 1..] == rest;
        SpelledScans(more, parts[1..]);
      } else {
        assert parts == [p];
        assert s == p.text;
        SlashAfter(s, |s|);
      }
    } else {
      assert before + parts == before;
    }
  }

  lemma UpperFacts(text: string)
    requires (forall i | 0 <= i < |text| :: Legal(text[i])) && '/' !in text && text != "" && text != "." && text != ".."
    ensures var u := Upper(text);
            && u != "" && u != "." && u != ".." && '/' !in u && Upper(u) == u
            && forall i | 0 <= i < |u| :: Legal(u[i])
  {
    var u := Upper(text);
    forall i | 0 <= i < |text|
      ensures Legal(u[i]) && u[i] != '/' && UpperChar(u[i]) == u[i] && (u[i] == '.' ==> text[i] == '.')
    {
      assert Legal(text[i]) && text[i] != '/';
    }
    if |text| == 1 {
      assert u[0] == '.' ==> text == ".";
    }
    if |text| == 2 {
      assert u[0] == '.' && u[1] == '.' ==> text == "..";
    }
  }

  lemma PushCanonical(parts: seq<Part>, text: string, isDir: bool)
    requires Canonical(parts) && (forall k | 0 <= k < |parts| :: parts[k].isDir)
    requires '/' !in text && Acceptable(parts, text)
    ensures Canonical(Push(parts, text, isDir))
    ensures isDir ==> forall k | 0 <= k < |Push(parts, text, isDir)| :: Push(parts, text, isDir)[k].isDir
  {
    if text != "" && text != "." && text != ".." {
      UpperFacts(text);
    }
  }

  /** Every successful scan leaves such parts. */
  lemma {:induction false} ScanCanonical(parts: seq<Part>, s: string)
    requires Canonical(parts) && (forall k | 0 <= k < |parts| :: parts[k].isDir) && |parts| <= 255
    requires ScanFrom(parts, s).Done?
    ensures Canonical(ScanFrom(parts, s).parts) && |ScanFrom(parts, s).parts| <= 255
    decreases |s|
  {
    if s != [] {
      var n := FirstSlash(s);
      PushCanonical(parts, s[..n], n < |s|);
      if n < |s| {
        ScanCanonical(Push(parts, s[..n], true), s[n + 1..]);
      } else {
        assert s[..n] == s;
      }
    }
  }

  /** Spelling out what was scanned and scanning it again changes nothing. */
  lemma ScanTwice(name: string)
    requires ScanFrom([], name).Done?
    ensures var parts := ScanFrom([], name).parts;
            ScanFrom([], Spelled(parts)) == Done(parts)
  {
    ScanCanonical([], name);
    var parts := ScanFrom([], name).parts;
    SpelledScans([], parts);
    assert [] + parts == parts;
  }
}
