/** The terminal of the kernel (kernel/base/console.c): bytes in, cells and a cursor out.  Whatever bytes come, the
    cursor, the scroll region and the saved states stay within the screen.
 */
module Consoles {
  import opened Machine
  import opened Arithmetic
  import opened ConsoleCells
  import opened ConsoleEscape
  import opened ConsoleViews
  import Utf8

  datatype StateCommand = ClearState | SaveCursor | SaveMainState | RestoreCursor | RestoreMainState

  lemma ShownAttribute(a: bv32)
    requires AttributeOk(a)
    ensures Shown(a) == a
  {
  }

  lemma AttributeStarts()
    ensures AttributeOk(0) && AttributeOk(DEFAULT)
  {
  }

  /** A state of the decoder in which it stands between two bytes of a sequence, or idle. */
  predicate Decodable(state: nat)
  {
    state == 0 || 1 <= state % 16 / 4 <= 3
  }

  lemma DecodedFirst(b: byte)
    ensures var (next, r) := Utf8.Step(0, b);
            Decodable(next) && (0 <= r < 0x80 ==> r == b) && r != Utf8.ERROR_RETRY
  {
    if b >= 0x80 && 2 <= Utf8.Class(b) {
      var k := Utf8.Class(b) - 1;
      Utf8.UnpackState(Utf8.LeadBits(b, k), k, k);
    }
  }

  lemma LowBits(state: nat)
    ensures state % 16 % 4 == state % 4
  {
  }

  lemma NibbleKept(v: nat, n: nat)
    requires n < 16 && n % 4 > 1
    ensures (v * 16 + (n - 1)) % 16 == n - 1 && (n - 1) / 4 == n / 4
  {
  }

  lemma DecodedNext(state: nat, b: byte)
    requires 1 <= state % 16 / 4 <= 3
    ensures var (next, r) := Utf8.Step(state, b);
            Decodable(next) && !(0 <= r < 0x80) && (r == Utf8.ERROR_RETRY ==> next == 0)
  {
    hide Utf8.Class;
    var n := state % 16;
    if Utf8.Class(b) == 1 && state % 4 > 1 {
      LowBits(state);
      NibbleKept(state / 16 % 0x8000 * 0x40 + b % 0x40, n);
    }
  }

  /** The decoder gives a number below 0x80 only for the byte of that value. */
  lemma DecodedByte(state: nat, b: byte)
    requires Decodable(state)
    ensures Decodable(Utf8.Step(state, b).0)
    ensures 0 <= Utf8.Step(state, b).1 < 0x80 ==> Utf8.Step(state, b).1 == b
    ensures Utf8.Step(state, b).1 == Utf8.ERROR_RETRY ==> state != 0 && Utf8.Step(state, b).0 == 0
  {
    if state == 0 {
      DecodedFirst(b);
    } else {
      DecodedNext(state, b);
    }
  }

  /** The character that an answer of the decoder stands for. */
  function CharOf(r: int): (c: nat)
    ensures c <= 0xF_FFFF
  {
    if r < 0 || r > 0xF_FFFF then 0xFFFD else if r == 0x0B || r == 0x0C then 0x0A else r
  }

  /** The characters of a stream of bytes: zeros are left out, what is no UTF-8 becomes a replacement, and a byte that
      breaks off a character is looked at again. */
  function Characters(state: nat, data: seq<byte>): (chars: seq<nat>)
    requires Decodable(state)
    decreases |data|, state
  {
    if data == [] then []
    else if data[0] == 0 then Characters(state, data[1..])
    else
      DecodedByte(state, data[0]);
      var (next, r) := Utf8.Step(state, data[0]);
      if r == Utf8.WAITING then Characters(next, data[1..])
      else [CharOf(r)] + Characters(next, if r == Utf8.ERROR_RETRY then data else data[1..])
  }

  lemma {:induction false} AsciiCharacters(data: seq<byte>)
    requires forall k | 0 <= k < |data| :: 0 < data[k] < 0x80 && data[k] != 0x0B && data[k] != 0x0C
    ensures |Characters(0, data)| == |data| && forall k | 0 <= k < |data| :: Characters(0, data)[k] == data[k]
    decreases |data|
  {
    if data != [] {
      AsciiCharacters(data[1..]);
    }
  }

  function CharsOf(answers: seq<int>): (chars: seq<nat>)
    ensures |chars| == |answers|
  {
    seq(|answers|, i requires 0 <= i < |answers| => CharOf(answers[i]))
  }

  lemma NoAnswers(state: nat)
    ensures Utf8.Answers(state, []) == [] && Utf8.After(state, []) == state && CharsOf([]) == []
  {
  }

  lemma OneMoreAnswer(r: int, answers: seq<int>)
    ensures CharsOf([r] + answers) == [CharOf(r)] + CharsOf(answers)
  {
  }

  lemma OneMoreByte(state: nat, data: seq<byte>)
    requires Decodable(state) && data != [] && data[0] != 0
    ensures var (next, r) := Utf8.Step(state, data[0]);
            && Decodable(next)
            && Utf8.After(state, data) == Utf8.After(next, data[1..])
            && Utf8.Answers(state, data) == (if r == Utf8.WAITING then [] else [r]) + Utf8.Answers(next, data[1..])
            && (r != Utf8.ERROR_RETRY ==>
                  Characters(state, data) ==
                  if r == Utf8.WAITING then Characters(next, data[1..]) else [CharOf(r)] + Characters(next, data[1..]))
  {
    hide Utf8.Step, CharOf, Decodable;
    DecodedByte(state, data[0]);
  }

  lemma {:induction false} CharactersOfAnswers(state: nat, data: seq<byte>, rest: seq<byte>)
    requires Decodable(state) && 0 !in data && Utf8.ERROR_RETRY !in Utf8.Answers(state, data)
    ensures Decodable(Utf8.After(state, data))
    ensures Characters(state, data + rest)
            == CharsOf(Utf8.Answers(state, data)) + Characters(Utf8.After(state, data), rest)
    decreases |data|
  {
    hide Utf8.Step, Decodable, CharOf, CharsOf, Characters, Utf8.Answers, Utf8.After;
    if data == [] {
      assert data + rest == rest;
      NoAnswers(state);
    } else {
      var all := data + rest;
      var (next, r) := Utf8.Step(state, data[0]);
      assert all[0] == data[0] && all[1..] == data[1..] + rest;
      OneMoreByte(state, data);
      OneMoreByte(state, all);
      CharactersOfAnswers(next, data[1..], rest);
      var more := Utf8.Answers(next, data[1..]);
      assert [] + more == more;
      if r != Utf8.WAITING {
        assert r != Utf8.ERROR_RETRY by {
          assert Utf8.Answers(state, data)[0] == r;
        }
        OneMoreAnswer(r, more);
      }
    }
  }

  lemma NoZeroIn(v: nat)
    requires Utf8.IsScalar(v) && v != 0
    ensures 0 !in Utf8.Encoded(v)
  {
  }

  /** A text in UTF-8 is the text that the terminal sees. */
  lemma {:induction false} TextCharacters(text: seq<nat>)
    requires forall k | 0 <= k < |text| :: Utf8.IsScalar(text[k]) && 0 < text[k] <= 0xF_FFFF && text[k] !in {0x0B, 0x0C}
    ensures Characters(0, Utf8.EncodedAll(text)) == text
    decreases |text|
  {
    if text != [] {
      var v := text[0];
      NoZeroIn(v);
      Utf8.EncodedDecodes(v);
      CharactersOfAnswers(0, Utf8.Encoded(v), Utf8.EncodedAll(text[1..]));
      TextCharacters(text[1..]);
      assert CharsOf([v]) == [v];
    }
  }

  /** ESC [, what belongs to the sequence, and its last character. */
  predicate IsSequence(data: seq<nat>)
  {
    && 3 <= |data| < ESC_LIMIT && data[0] == 0x1B && data[1] == 0x5B
    && (forall j | 2 <= j < |data| - 1 :: IsInner(data[j]))
    && 0x40 <= data[|data| - 1] <= 0x7E && data[|data| - 1] != 0x5B
  }

  lemma SequenceBytes(steps: seq<Moment>, data: seq<byte>)
    requires IsSequence(data) && Traced(steps, Characters(0, data))
    ensures |steps| == |data| + 1 && steps[0].view.Valid() && steps[0].view.Settled().Valid()
    ensures Finished(steps[0].view.Settled(), steps[|data|].view, data) && steps[|data|].begun == []
  {
    hide Finished, Follows, Characters, View.Valid;
    forall k | 0 <= k < |data|
      ensures 0 < data[k] < 0x80 && data[k] != 0x0B && data[k] != 0x0C
    {
      assert 2 <= k < |data| - 1 ==> IsInner(data[k]);
    }
    AsciiCharacters(data);
    ghost var chars: seq<nat> := data;
    assert Characters(0, data) == chars;
    SequenceRuns(steps, chars);
  }

  /** The next byte of the stream: the character that it ends, if there is one. */
  lemma NextCharacter(state: nat, data: seq<byte>, i: nat, chars: seq<nat>)
    requires Decodable(state) && i < |data|
    ensures data[i] == 0 ==> Characters(state, data[i..]) == Characters(state, data[i + 1..])
    ensures data[i] != 0 ==>
              var (next, r) := Utf8.Step(state, data[i]);
              && Decodable(next)
              && if r == Utf8.WAITING then Characters(state, data[i..]) == Characters(next, data[i + 1..])
                 else chars + Characters(state, data[i..])
                      == (chars + [CharOf(r)]) + Characters(next, data[if r == Utf8.ERROR_RETRY then i else i + 1..])
  {
    hide Utf8.Step, Decodable;
    DecodedByte(state, data[i]);
    assert data[i..][1..] == data[i + 1..];
  }

  lemma NoCharacters(state: nat, chars: seq<nat>)
    requires Decodable(state)
    ensures chars + Characters(state, []) == chars
  {
  }

  lemma NothingTraced(m: Moment)
    ensures Traced([m], [])
  {
  }

  /** The screen after text without control characters that fits the line. */
  ghost predicate TextWritten(was: seq<bv32>, now: seq<bv32>, place: int, text: seq<byte>, n: nat, attribute: bv32)
  {
    && 0 <= place && place + n <= |was| == |now| && n <= |text|
    && (forall k | 0 <= k < |was| && !(place <= k < place + n) :: Shown(now[k]) == Shown(was[k]))
    && forall k | place <= k < place + n :: now[k] == Cell(if text[k - place] == 0x20 then 0 else text[k - place], attribute)
  }

  lemma TextMore(was: seq<bv32>, now: seq<bv32>, next: seq<bv32>, place: int, text: seq<byte>, n: nat, attribute: bv32)
    requires TextWritten(was, now, place, text, n, attribute) && n < |text| && place + n < |now|
    requires next == now[place + n := Cell(if text[n] == 0x20 then 0 else text[n], attribute)]
    ensures TextWritten(was, next, place, text, n + 1, attribute)
  {
    hide Cell, Shown;
  }

  class Console {
    const columns: nat
    const rows: nat
    const cells: nat
    const main: array<bv32>
    const alt: array<bv32>
    const tabs: array<bool>
    const esc: array<nat>

    var buffer: array<bv32>
    var x: int
    var y: int
    var scrollFirst: int
    var scrollLast: int
    var utf8State: nat
    var wrapDelay: bool
    var cursorVisible: bool
    var attribute: bv32
    var escSize: nat
    var savedAttribute: bv32      // cmd[0] to cmd[2]
    var savedX: int
    var savedY: int
    var saved: Saved              // cmd[3] to cmd[7]

    ghost predicate Shape()
    {
      && 70 <= columns <= 128 && 25 <= rows && cells == columns * rows
      && main.Length == cells && alt.Length == cells && main != alt
      && tabs.Length == columns && esc.Length == ESC_LIMIT
      && (main as object) != (tabs as object) && (alt as object) != (tabs as object)
      && (esc as object) != (tabs as object) && (esc as object) != (main as object) && (esc as object) != (alt as object)
    }

    ghost predicate ScreenOk()
      reads this`buffer, this`x, this`y, this`scrollFirst, this`scrollLast, this`attribute
    {
      && (buffer == main || buffer == alt)
      && 0 <= x < columns && 0 <= y < rows
      && 0 <= scrollFirst <= scrollLast < rows
      && AttributeOk(attribute)
    }

    ghost predicate SavedMainOk(s: Saved)
    {
      && AttributeOk(s.attribute) && 0 <= s.x < columns && 0 <= s.y < rows
      && 0 <= s.first <= s.last < rows
    }

    ghost predicate SavedOk()
      reads this`buffer, this`savedAttribute, this`savedX, this`savedY, this`saved
    {
      && AttributeOk(savedAttribute) && 0 <= savedX < columns && 0 <= savedY < rows
      && (buffer == alt ==> SavedMainOk(saved))
    }

    ghost predicate TabsOk()
      requires Shape()
      reads tabs
    {
      tabs[columns - 1]
    }

    /** All but the escape buffer. */
    ghost predicate Sound()
      reads this, tabs
    {
      Shape() && ScreenOk() && SavedOk() && TabsOk()
    }

    ghost predicate EscOk()
      requires Shape()
      reads this`escSize, esc
    {
      escSize < ESC_LIMIT && forall k | 1 <= k < escSize :: IsInner(esc[k])
    }

    ghost predicate Valid()
      reads this, tabs, esc
    {
      Sound() && EscOk() && Decodable(utf8State)
    }

    lemma GeometryFacts()
      requires Shape()
      ensures 70 <= columns <= 128 && 25 <= rows && tabs.Length == columns && esc.Length == ESC_LIMIT
      ensures main.Length == cells && alt.Length == cells && main != alt
      ensures (main as object) != (tabs as object) && (alt as object) != (tabs as object)
      ensures (esc as object) != (tabs as object) && (esc as object) != (main as object) && (esc as object) != (alt as object)
    {
    }

    function Place(column: int, row: int): int
    {
      PlaceOf(column, row, columns)
    }

    lemma InScreen(column: int, row: int)
      requires Shape() && 0 <= column < columns && 0 <= row < rows
      ensures 0 <= row * columns <= Place(column, row) < row * columns + columns <= cells
    {
      PlaceInScreen(column, row, columns, rows);
    }

    lemma InRegion(first: int, last: int)
      requires Shape() && 0 <= first <= last < rows
      ensures 0 <= first * columns && first * columns + columns <= (last + 1) * columns <= cells
    {
      LinesInScreen(first, last, columns, rows);
    }

    /** What the terminal shows and remembers. */
    ghost function Look(): View
      reads this`buffer, this`x, this`y, this`scrollFirst, this`scrollLast, this`attribute, this`wrapDelay
      reads this`savedX, this`savedY, this`savedAttribute, this`saved, this`cursorVisible, buffer, main, tabs
    {
      View(columns, rows, AllShown(buffer[..]), buffer != main, if buffer != main then AllShown(main[..]) else [],
           x, y, scrollFirst, scrollLast, attribute, wrapDelay, tabs[..],
           savedX, savedY, savedAttribute, saved, cursorVisible)
    }

    /** The sequence that has begun. */
    ghost function Begun(): seq<nat>
      reads this`escSize, esc
    {
      if escSize <= esc.Length then esc[..escSize] else []
    }

    lemma BegunFacts()
      requires Shape() && EscOk()
      ensures |Begun()| == escSize < ESC_LIMIT
    {
    }

    lemma LookValid()
      requires Shape() && ScreenOk()
      ensures Look().Valid()
    {
    }

    // ----- States

    method KeepCursor()
      requires Sound()
      modifies this`savedAttribute, this`savedX, this`savedY
      ensures Sound() && savedAttribute == attribute && savedX == x && savedY == y
      ensures Look() == old(Look()).CursorSaved()
    {
      hide AttributeOk, Shape, TabsOk, Shown, AllShown;
      ShownAttribute(attribute);
      savedAttribute, savedX, savedY := Shown(attribute), x, y;
    }

    method ReturnCursor()
      requires Sound()
      modifies this`x, this`y, this`wrapDelay, this`attribute
      ensures Sound() && attribute == savedAttribute && x == savedX && y == savedY && !wrapDelay
      ensures Look() == old(Look()).CursorRestored()
    {
      hide AttributeOk, Shape, TabsOk, Shown, AllShown;
      attribute, x, y, wrapDelay := savedAttribute, savedX, savedY, false;
    }

    /** con_handle_state */
    method HandleState(cmd: StateCommand)
      requires Sound() && (cmd == RestoreMainState ==> SavedMainOk(saved)) && (cmd == ClearState ==> buffer == main)
      modifies this`x, this`y, this`scrollFirst, this`scrollLast, this`wrapDelay, this`attribute
      modifies this`savedAttribute, this`savedX, this`savedY, this`saved
      ensures Sound()
      ensures cmd == SaveCursor ==> savedAttribute == attribute && savedX == x && savedY == y
      ensures cmd == SaveMainState ==> saved == Saved(attribute, x, y, scrollFirst, scrollLast)
      ensures cmd != SaveMainState && cmd != ClearState ==> saved == old(saved)
      ensures cmd == RestoreCursor ==> attribute == old(savedAttribute) && x == old(savedX) && y == old(savedY) && !wrapDelay
      ensures cmd == RestoreMainState ==>
                attribute == saved.attribute && x == saved.x && y == saved.y
                && scrollFirst == saved.first && scrollLast == saved.last && !wrapDelay
      ensures cmd != RestoreCursor && cmd != RestoreMainState ==>
                attribute == old(attribute) && x == old(x) && y == old(y) && wrapDelay == old(wrapDelay)
      ensures cmd != RestoreMainState ==> scrollFirst == old(scrollFirst) && scrollLast == old(scrollLast)
      ensures cmd == RestoreMainState ==>
                savedX == old(savedX) && savedY == old(savedY) && savedAttribute == old(savedAttribute)
      ensures cmd == SaveCursor ==> Look() == old(Look()).CursorSaved()
      ensures cmd == RestoreCursor ==> Look() == old(Look()).CursorRestored()
    {
      hide AttributeOk, Shape, TabsOk, Shown, Look, View.CursorSaved, View.CursorRestored;
      AttributeStarts();
      ShownAttribute(attribute);
      GeometryFacts();
      match cmd {
        case ClearState =>
          savedAttribute, savedX, savedY := 0, 0, 0;
          saved := Saved(0, 0, 0, 0, 0);
        case SaveCursor =>
          KeepCursor();
        case SaveMainState =>
          saved := Saved(Shown(attribute), x, y, scrollFirst, scrollLast);
        case RestoreCursor =>
          ReturnCursor();
        case RestoreMainState =>
          attribute, x, y, wrapDelay := saved.attribute, saved.x, saved.y, false;
          scrollFirst, scrollLast := saved.first, saved.last;
      }
    }

    method InitTabs()
      requires Shape()
      modifies tabs
      ensures TabsOk() && forall i | 0 <= i < columns - 1 :: tabs[i] == (i % 8 == 0)
    {
      hide Shape;
      GeometryFacts();
      for i := 0 to columns
        invariant forall k | 0 <= k < i :: tabs[k] == (k % 8 == 0)
      {
        tabs[i] := i % 8 == 0;
      }
      tabs[columns - 1] := true;
    }

    /** con_init_variables */
    method InitVariables()
      requires Shape() && buffer == main
      modifies this`x, this`y, this`scrollFirst, this`scrollLast, this`utf8State, this`wrapDelay, this`cursorVisible
      modifies this`attribute, this`escSize, this`savedAttribute, this`savedX, this`savedY, this`saved, tabs
      ensures Valid() && escSize == 0 && utf8State == 0 && cursorVisible
      ensures x == 0 && y == 0 && scrollFirst == 0 && scrollLast == rows - 1 && attribute == DEFAULT && !wrapDelay
      ensures savedX == savedY == 0 && savedAttribute == 0 && saved == Saved(0, 0, 0, 0, 0)
      ensures forall i | 0 <= i < columns - 1 :: tabs[i] == (i % 8 == 0)
    {
      hide AttributeOk, Shape, TabsOk;
      GeometryFacts();
      AttributeStarts();
      attribute, escSize := DEFAULT, 0;
      x, y, scrollFirst, scrollLast := 0, 0, 0, rows - 1;
      utf8State, wrapDelay, cursorVisible := 0, false, true;
      savedAttribute, savedX, savedY := 0, 0, 0;
      saved := Saved(0, 0, 0, 0, 0);
      InitTabs();
    }

    static lemma AllBlank(b: seq<bv32>)
      requires forall k | 0 <= k < |b| :: b[k] == 0
      ensures AllShown(b) == seq(|b|, _ => 0)
    {
      var s := AllShown(b);
      assert forall k | 0 <= k < |b| :: s[k] == Shown(b[k]);
    }

    lemma LooksFresh()
      requires Valid() && buffer == main && AllShown(main[..]) == seq(cells, _ => 0)
      requires x == 0 && y == 0 && scrollFirst == 0 && scrollLast == rows - 1 && attribute == DEFAULT && !wrapDelay
      requires cursorVisible && savedX == savedY == 0 && savedAttribute == 0 && saved == Saved(0, 0, 0, 0, 0)
      requires forall i | 0 <= i < columns - 1 :: tabs[i] == (i % 8 == 0)
      ensures Look() == Fresh(columns, rows)
    {
      hide AttributeOk, SavedOk, EscOk, Decodable, AllShown;
      assert tabs[..] == Fresh(columns, rows).tabs;
    }

    /** A terminal as con_init leaves it. */
    constructor (c: nat, r: nat)
      requires 70 <= c <= 128 && 25 <= r
      ensures Valid() && columns == c && rows == r && buffer == main && Look() == Fresh(c, r)
    {
      columns, rows, cells := c, r, c * r;
      main := new bv32[c * r](_ => 0);
      alt := new bv32[c * r](_ => 0);
      tabs := new bool[c](_ => false);
      esc := new nat[ESC_LIMIT](_ => 0);
      buffer := main;
      saved := Saved(0, 0, 0, 0, 0);
      new;
      InitVariables();
      AllBlank(main[..]);
      LooksFresh();
    }

    // ----- Scrolling

    /** con_scroll_up: the lines of the scroll region move up, the last one is blank, and no other cell changes. */
    method ScrollUp()
      requires Shape() && ScreenOk()
      modifies buffer
      ensures 0 <= scrollFirst * columns && scrollFirst * columns + columns <= (scrollLast + 1) * columns <= cells
      ensures AllShown(buffer[..])
              == ScrolledUp(old(AllShown(buffer[..])), scrollFirst * columns, (scrollLast + 1) * columns, columns, attribute)
      ensures forall k | 0 <= k < cells && !(scrollFirst * columns <= k < (scrollLast + 1) * columns) :: buffer[k] == old(buffer[k])
    {
      hide AttributeOk, ScrolledUp, Shown;
      InRegion(scrollFirst, scrollLast);
      ShownAttribute(attribute);
      ConsoleCells.ScrollUp(buffer, scrollFirst * columns, (scrollLast + 1) * columns, columns, attribute);
    }

    /** con_scroll_down */
    method ScrollDown()
      requires Shape() && ScreenOk()
      modifies buffer
      ensures 0 <= scrollFirst * columns && scrollFirst * columns + columns <= (scrollLast + 1) * columns <= cells
      ensures AllShown(buffer[..])
              == ScrolledDown(old(AllShown(buffer[..])), scrollFirst * columns, (scrollLast + 1) * columns, columns, attribute)
      ensures forall k | 0 <= k < cells && !(scrollFirst * columns <= k < (scrollLast + 1) * columns) :: buffer[k] == old(buffer[k])
    {
      hide AttributeOk, ScrolledDown, Shown;
      InRegion(scrollFirst, scrollLast);
      ShownAttribute(attribute);
      ConsoleCells.ScrollDown(buffer, scrollFirst * columns, (scrollLast + 1) * columns, columns, attribute);
    }

    /** con_increment_row: one line down; at the end of the scroll region the region scrolls instead, and at the
        end of the screen nothing moves. */
    method IncrementRow()
      requires Shape() && ScreenOk()
      modifies this`y, buffer
      ensures ScreenOk()
      ensures 0 <= scrollFirst * columns && scrollFirst * columns + columns <= (scrollLast + 1) * columns <= cells
      ensures old(y) != scrollLast ==> buffer[..] == old(buffer[..]) && y == Clip(old(y) + 1, rows - 1)
      ensures old(y) == scrollLast ==>
                && y == old(y)
                && AllShown(buffer[..])
                   == ScrolledUp(old(AllShown(buffer[..])), scrollFirst * columns, (scrollLast + 1) * columns, columns, attribute)
      ensures old(Look()).Valid() && Look() == old(Look()).NextLine()
    {
      hide AttributeOk, ScrolledUp, Shown, AllShown;
      LookValid();
      InRegion(scrollFirst, scrollLast);
      y := y + 1;
      if y == scrollLast + 1 {
        y := y - 1;
        ScrollUp();
      } else if y >= rows {
        y := rows - 1;
      }
    }

    // ----- Cursor

    method Goal(kind: nat, n: int, m: int) returns (column: int, row: int)
      requires Sound() && n >= 1 && m >= 1
      ensures (column, row) == Look().Target(kind, n, m) && 0 <= column < columns && 0 <= row < rows
    {
      hide AttributeOk, Shape, TabsOk, SavedOk;
      GeometryFacts();
      column, row := x, y;
      match kind {
        case 0x41 => row := if y - n >= 0 then y - n else 0;
        case 0x42 => row := if y + n < rows then y + n else rows - 1;
        case 0x43 => column := if x + n < columns then x + n else columns - 1;
        case 0x44 => column := if x - n >= 0 then x - n else 0;
        case 0x45 =>
          column := 0;
          row := if y + n < rows then y + n else rows - 1;
        case 0x46 =>
          column := 0;
          row := if y - n >= 0 then y - n else 0;
        case 0x47 => column := if n - 1 < columns then n - 1 else columns - 1;
        case 0x64 => row := if n - 1 < rows then n - 1 else rows - 1;
        case _ =>
          row := if n - 1 < rows then n - 1 else rows - 1;
          column := if m - 1 < columns then m - 1 else columns - 1;
      }
    }

    /** The cursor sequences of con_handle_escape. */
    method MoveCursor(kind: nat, n: int, m: int)
      requires Sound() && n >= 1 && m >= 1
      modifies this`x, this`y, this`wrapDelay
      ensures Sound() && !wrapDelay && (x, y) == old(Look().Target(kind, n, m))
      ensures Look() == old(Look()).(x := x, y := y, delay := false)
    {
      hide AttributeOk, Shape, TabsOk, View.Target;
      var column, row := Goal(kind, n, m);
      x, y, wrapDelay := column, row, false;
    }

    method FindForward(n: nat) returns (t: nat)
      requires Sound() && n >= 1
      ensures t == Forward(tabs[..], x, n)
    {
      hide AttributeOk, Shape, SavedOk, NextStop;
      GeometryFacts();
      ghost var stops := tabs[..];
      var left: nat := n;
      t := columns - 1;
      ghost var at: nat := x;           // the last tab stop that was counted
      for i := x + 1 to columns
        invariant left <= n && x <= at < i && t == (if left == n then columns - 1 else at)
        invariant left == n ==> at == x
        invariant i == columns && x < columns - 1 && left > 0 ==> at == columns - 1
        invariant Forward(stops, x, n) == Forward(stops, at, left)
        invariant left > 0 ==> NextStop(stops, at) == NextStop(stops, i - 1)
      {
        NextStopIs(stops, i - 1);
        if tabs[i] && left > 0 {
          t, left, at := i, left - 1, i;
        }
      }
      ForwardAtEnd(stops, left);
      assert x < columns - 1 ==> left != n;
      assert left > 0 ==> Forward(stops, at, left) == columns - 1;
      assert left == 0 ==> Forward(stops, at, left) == at == t;
    }

    /** CSI I: n tab stops to the right. */
    method ForwardTabs(n: nat)
      requires Sound() && n >= 1
      modifies this`x, this`wrapDelay
      ensures Sound() && !wrapDelay && x == Forward(tabs[..], old(x), n)
      ensures Look() == old(Look()).(x := x, delay := false)
    {
      hide AttributeOk, Shape, SavedOk;
      GeometryFacts();
      x := FindForward(n);
      wrapDelay := false;
    }

    /** CSI Z: n tab stops to the left. */
    method BackwardTabs(n: nat)
      requires Sound() && n >= 1
      modifies this`x, this`wrapDelay
      ensures Sound() && !wrapDelay && x == Backward(tabs[..], old(x), n)
      ensures Look() == old(Look()).(x := x, delay := false)
    {
      hide AttributeOk, Shape, SavedOk, TabsOk, AllShown;
      GeometryFacts();
      wrapDelay := false;
      var left := n;
      var i := x - 1;
      ghost var x0 := x;
      if x == 0 {
        BackwardAtStart(tabs[..], n);
      }
      while i >= 0 && left > 0
        invariant -1 <= i < x0 && 0 <= left <= n && 0 <= x <= x0 && i < x
        invariant Sound() && !wrapDelay
        invariant Backward(tabs[..], x0, n) == Backward(tabs[..], x, left)
        invariant left > 0 && x > 0 ==> i >= 0 && PreviousStop(tabs[..], x) == PreviousStop(tabs[..], i + 1)
        decreases i + 1
      {
        if i == 0 || tabs[i] {
          x := i;
          left := left - 1;
        }
        i := i - 1;
      }
      if left > 0 {
        BackwardAtStart(tabs[..], left);
      }
    }

    // ----- Cells

    /** CSI J and CSI K: the cells of the range take the attribute and no other cell changes. */
    method Erase(n: int, line: bool)
      requires Sound()
      modifies buffer
      ensures var (from, to) := if line then LineRange(n, Place(x, y), y * columns, columns) else DisplayRange(n, Place(x, y), cells);
              && 0 <= from <= to <= cells
              && (forall k | from <= k < to :: buffer[k] == attribute)
              && (forall k | 0 <= k < cells && !(from <= k < to) :: buffer[k] == old(buffer[k]))
              && AllShown(buffer[..]) == Erased(old(AllShown(buffer[..])), from, to, attribute)
    {
      hide AttributeOk, Shown;
      InScreen(x, y);
      ShownAttribute(attribute);
      var (t0, t1) := if line then LineRange(n, Place(x, y), y * columns, columns) else DisplayRange(n, Place(x, y), cells);
      for i := t0 to t1
        invariant forall k | t0 <= k < i :: buffer[k] == attribute
        invariant forall k | 0 <= k < cells && !(t0 <= k < i) :: buffer[k] == old(buffer[k])
      {
        buffer[i] := attribute;
      }
    }

    /** CSI X: at most n cells of the line. */
    method EraseChars(n: nat)
      requires Sound()
      modifies buffer
      ensures var from := Place(x, y);
              var to := if from + n < y * columns + columns then from + n else y * columns + columns;
              && 0 <= from <= to <= cells
              && AllShown(buffer[..]) == Erased(old(AllShown(buffer[..])), from, to, attribute)
              && (forall k | 0 <= k < cells && !(from <= k < to) :: buffer[k] == old(buffer[k]))
    {
      hide AttributeOk, Shown;
      InScreen(x, y);
      ShownAttribute(attribute);
      var from := Place(x, y);
      EraseCells(buffer, from, if from + n < y * columns + columns then from + n else y * columns + columns, attribute);
    }

    /** CSI @ and CSI P: cells of the line from the cursor on move to the right or to the left. */
    method ShiftChars(n: nat, insert: bool)
      requires Sound()
      modifies buffer
      ensures 0 <= Place(x, y) <= y * columns + columns <= cells
      ensures AllShown(buffer[..]) ==
              if insert then Inserted(old(AllShown(buffer[..])), Place(x, y), y * columns + columns, n, attribute)
              else Deleted(old(AllShown(buffer[..])), Place(x, y), y * columns + columns, n, attribute)
      ensures forall k | 0 <= k < cells && !(Place(x, y) <= k < y * columns + columns) :: buffer[k] == old(buffer[k])
    {
      hide AttributeOk, Shown, Inserted, Deleted;
      InScreen(x, y);
      ShownAttribute(attribute);
      if insert {
        InsertCells(buffer, Place(x, y), y * columns + columns, n, attribute);
      } else {
        DeleteCells(buffer, Place(x, y), y * columns + columns, n, attribute);
      }
    }

    static lemma ShownLength(b: seq<bv32>)
      ensures |AllShown(b)| == |b|
    {
    }

    /** CSI S and CSI T: the scroll region moves by n lines, at most by the height of the screen. */
    method ScrollLines(n: nat, down: bool)
      requires Sound()
      modifies buffer
      ensures 0 <= scrollFirst * columns && scrollFirst * columns + columns <= (scrollLast + 1) * columns <= cells
      ensures var from, to, count := scrollFirst * columns, (scrollLast + 1) * columns, if n > rows then rows else n;
              AllShown(buffer[..]) ==
              if down then LinesDown(old(AllShown(buffer[..])), from, to, columns, attribute, count)
              else LinesUp(old(AllShown(buffer[..])), from, to, columns, attribute, count)
    {
      hide AttributeOk, Shown, ScrolledUp, ScrolledDown, AllShown;
      InRegion(scrollFirst, scrollLast);
      ghost var was := AllShown(buffer[..]);
      ShownLength(buffer[..]);
      var count := if n > rows then rows else n;
      for i := 0 to count
        invariant AllShown(buffer[..]) ==
                  if down then LinesDown(was, scrollFirst * columns, (scrollLast + 1) * columns, columns, attribute, i)
                  else LinesUp(was, scrollFirst * columns, (scrollLast + 1) * columns, columns, attribute, i)
      {
        ShownLength(buffer[..]);
        if down {
          ScrollDown();
        } else {
          ScrollUp();
        }
      }
    }

    /** CSI L and CSI M: in the scroll region the lines from the cursor on move; elsewhere nothing does. */
    method ShiftLines(n: nat, insert: bool)
      requires Sound()
      modifies this`scrollFirst, buffer
      ensures Sound() && scrollFirst == old(scrollFirst)
      ensures !(scrollFirst <= y <= scrollLast) ==> AllShown(buffer[..]) == old(AllShown(buffer[..]))
      ensures scrollFirst <= y <= scrollLast ==>
                && 0 <= y * columns && y * columns + columns <= (scrollLast + 1) * columns <= cells
                && var from, to, count := y * columns, (scrollLast + 1) * columns, if n > rows then rows else n;
                AllShown(buffer[..]) ==
                if insert then LinesDown(old(AllShown(buffer[..])), from, to, columns, attribute, count)
                else LinesUp(old(AllShown(buffer[..])), from, to, columns, attribute, count)
    {
      hide AttributeOk, Shown, LinesDown, LinesUp, AllShown;
      var savedVal := scrollFirst;
      if y < scrollFirst || y > scrollLast {
        return;
      }
      scrollFirst := y;
      ScrollLines(n, insert);
      scrollFirst := savedVal;
    }

    // ----- Tab stops, scroll region, reset

    /** CSI g: the last tab stop stays. */
    method ClearTabs(n: int)
      requires Sound()
      modifies tabs
      ensures Sound()
      ensures Look() == old(Look()).(tabs := TabsAfter(old(tabs[..]), x, n))
    {
      hide AttributeOk, SavedOk;
      var t := columns - 1;
      if n == 0 {
        if x < t {
          tabs[x] := false;
        }
      } else if n == 3 {
        for i := 0 to t
          invariant forall k | 0 <= k < columns :: tabs[k] == (old(tabs[k]) && !(k < i))
        {
          tabs[i] := false;
        }
      }
    }

    /** ESC H */
    method SetTab()
      requires Sound()
      modifies tabs
      ensures Sound()
      ensures Look() == old(Look()).(tabs := old(tabs[..])[x := true])
    {
      hide AttributeOk, SavedOk;
      tabs[x] := true;
    }

    /** CSI r: lines n to m, cut off at the screen; an empty region is one line. */
    method SetRegion(n0: int, m0: int)
      requires Sound()
      modifies this`scrollFirst, this`scrollLast
      ensures Sound()
      ensures scrollLast == (if m0 < 1 || m0 > rows then rows else m0) - 1
      ensures scrollFirst == Clip(n0 - 1, scrollLast)
      ensures Look() == old(Look()).(first := scrollFirst, last := scrollLast)
    {
      hide AttributeOk, SavedOk, TabsOk;
      var n, m := if n0 >= 1 then n0 else 1, if m0 >= 1 then m0 else rows;
      m := if m <= rows then m else rows;
      n := if n <= m then n else m;
      scrollFirst, scrollLast := n - 1, m - 1;
    }

    /** The state after a reset: both screens empty, the main one shown, all variables as in the beginning. */
    ghost predicate IsReset()
      reads this`buffer, this`x, this`y, this`scrollFirst, this`scrollLast, this`attribute, this`wrapDelay, main, alt
    {
      && buffer == main && main.Length == cells && alt.Length == cells
      && (forall k | 0 <= k < cells :: main[k] == 0 && alt[k] == 0)
      && x == 0 && y == 0 && scrollFirst == 0 && scrollLast == rows - 1 && attribute == DEFAULT && !wrapDelay
    }

    /** ESC c */
    method Reset()
      requires Shape()
      modifies this, main, alt, tabs
      ensures Valid() && IsReset() && escSize == 0 && utf8State == 0 && Look() == Fresh(columns, rows)
    {
      hide AttributeOk, Shape, SavedOk, TabsOk, EscOk;
      GeometryFacts();
      buffer := main;
      for i := 0 to cells
        modifies main, alt
        invariant forall k | 0 <= k < i :: main[k] == 0 && alt[k] == 0
      {
        buffer[i] := 0;
        alt[i] := 0;
      }
      InitVariables();
      AllBlank(main[..]);
      LooksFresh();
    }

    // ----- The alternate screen

    method ClearScreen(b: array<bv32>)
      modifies b
      ensures forall k | 0 <= k < b.Length :: b[k] == 0
    {
      for k := 0 to b.Length
        invariant forall q | 0 <= q < k :: b[q] == 0
      {
        b[k] := 0;
      }
    }

    method SaveMain()
      requires Sound() && buffer == main
      modifies this`saved
      ensures saved == Saved(attribute, x, y, scrollFirst, scrollLast) && SavedMainOk(saved) && Sound()
    {
      hide Shown, AttributeOk, Shape, TabsOk;
      ShownAttribute(attribute);
      saved := Saved(Shown(attribute), x, y, scrollFirst, scrollLast);
    }

    lemma CellsEnough()
      requires Shape()
      ensures cells > COUNT_LIMIT
    {
      Multiple(rows, columns);
    }

    lemma BufferIsScreen()
      requires Sound()
      ensures (buffer == main || buffer == alt) && buffer.Length == cells
      ensures (buffer as object) != (tabs as object)
    {
    }

    method ShowCursor(on: bool)
      requires Sound()
      modifies this`cursorVisible
      ensures Sound() && cursorVisible == on && Look() == old(Look()).(visible := on)
    {
      hide AttributeOk, Shape, TabsOk, SavedOk, ScreenOk, AllShown;
      cursorVisible := on;
    }

    method EnterAlternate()
      requires Sound()
      modifies this`buffer, this`saved, alt
      ensures Sound() && Look() == old(Look()).OnAlternate()
      ensures buffer == alt && (forall k | 0 <= k < alt.Length :: alt[k] == 0)
      ensures saved == if old(buffer) == main then Saved(attribute, x, y, scrollFirst, scrollLast) else old(saved)
    {
      hide AttributeOk, Shape, TabsOk, AllShown;
      GeometryFacts();
      if buffer == main {
        SaveMain();
      }
      buffer := alt;
      ClearScreen(alt);
      AllBlank(alt[..]);
      BufferIsScreen();
    }

    lemma LookFields()
      ensures Look().columns == columns && Look().rows == rows
      ensures Look().x == x && Look().y == y && Look().first == scrollFirst && Look().last == scrollLast
      ensures Look().attribute == attribute && Look().delay == wrapDelay && Look().tabs == tabs[..]
      ensures Look().visible == cursorVisible && (Look().alternate <==> buffer != main)
    {
    }

    /** CSI ? h: a parameter 1049 saves the main screen's state and shows an empty alternate screen, and 25 shows the
        cursor.  The loop over the cells shares its counter with the one over the parameters, so that those behind
        1049 are not looked at. */
    method SetModes(parameters: seq<nat>, question: bool)
      requires Sound() && |parameters| <= COUNT_LIMIT
      modifies this`buffer, this`saved, this`cursorVisible, alt
      ensures Sound()
      ensures !question || 1049 !in parameters ==> buffer == old(buffer) && saved == old(saved) && alt[..] == old(alt[..])
      ensures question && 1049 in parameters ==>
                && buffer == alt && (forall k | 0 <= k < alt.Length :: alt[k] == 0)
                && saved == if old(buffer) == main then Saved(attribute, x, y, scrollFirst, scrollLast) else old(saved)
      ensures Look() == if question then old(Look()).ModesSet(parameters) else old(Look())
    {
      hide AttributeOk, Shape, TabsOk, AllShown, ScreenOk, SavedOk, Look, Before1049;
      LookFields();
      GeometryFacts();
      CellsEnough();
      BufferIsScreen();
      var i := 0;
      while i < |parameters| && question
        invariant 0 <= i && (!question ==> i == 0) && Sound()
        invariant Look() == (if i > |parameters| then old(Look()).OnAlternate() else old(Look())).(visible := cursorVisible)
        invariant i <= |parameters| ==>
                    1049 !in parameters[..i] && buffer == old(buffer) && saved == old(saved) && alt[..] == old(alt[..])
        invariant i > |parameters| ==>
                    && question && 1049 in parameters && buffer == alt && (forall k | 0 <= k < alt.Length :: alt[k] == 0)
                    && saved == if old(buffer) == main then Saved(attribute, x, y, scrollFirst, scrollLast) else old(saved)
        invariant cursorVisible ==
                    (old(cursorVisible) || 25 in if i <= |parameters| then parameters[..i] else Before1049(parameters))
        decreases |parameters| - i
      {
        var n := parameters[i];
        if n == 25 {
          ShowCursor(true);
        }
        assert parameters[..i + 1] == parameters[..i] + [n];
        if n == 1049 {
          Before1049Is(parameters, i);
          EnterAlternate();
          i := cells;
        }
        i := i + 1;
      }
      if i == |parameters| {
        assert parameters[..i] == parameters;
        Before1049Is(parameters, i);
      }
    }

    /** The main screen is back as it was saved: its cells, the cursor, the region and the attribute. */
    twostate predicate MainRestored()
      reads this, main
    {
      && buffer == main && AllShown(main[..]) == old(AllShown(main[..]))
      && x == old(saved).x && y == old(saved).y && attribute == old(saved).attribute
      && scrollFirst == old(saved).first && scrollLast == old(saved).last
    }

    method MarkUnrendered()
      requires Shape()
      modifies main
      ensures AllShown(main[..]) == old(AllShown(main[..]))
    {
      hide Shown, Shape;
      GeometryFacts();
      ghost var was := main[..];
      for k := 0 to cells
        invariant forall q | 0 <= q < cells :: Shown(main[q]) == Shown(was[q])
      {
        ShownTwice(main[k]);
        main[k] := Shown(main[k]);
      }
      assert AllShown(main[..]) == AllShown(was);
    }

    method LeaveAlternate()
      requires Sound() && buffer == alt
      modifies this`buffer, this`x, this`y, this`scrollFirst, this`scrollLast, this`wrapDelay, this`attribute, main, alt
      modifies this`savedAttribute, this`savedX, this`savedY, this`saved
      ensures Sound() && MainRestored() && Look() == old(Look()).OnMain()
    {
      hide AttributeOk, Shape, TabsOk;
      GeometryFacts();
      ClearScreen(buffer);
      buffer := main;
      HandleState(RestoreMainState);
      MarkUnrendered();
    }

    /** CSI ? l: a parameter 1049 leaves the alternate screen, with the same effect on the parameters behind it, and 25
        hides the cursor. */
    method ResetModes(parameters: seq<nat>, question: bool)
      requires Sound() && |parameters| <= COUNT_LIMIT
      modifies this, main, alt
      ensures Sound() && escSize == old(escSize) && utf8State == old(utf8State)
      ensures if question && 1049 in parameters && old(buffer) == alt then MainRestored()
              else buffer == old(buffer) && main[..] == old(main[..]) && saved == old(saved)
      ensures Look() == if question then old(Look()).ModesReset(parameters) else old(Look())
    {
      hide AttributeOk, Shape, TabsOk, AllShown, Shown, ScreenOk, SavedOk, Look, Before1049;
      LookFields();
      GeometryFacts();
      CellsEnough();
      BufferIsScreen();
      var i := 0;
      while i < |parameters| && question
        invariant 0 <= i && (!question ==> i == 0) && Sound() && escSize == old(escSize) && utf8State == old(utf8State)
        invariant i <= |parameters| ==>
                    (old(buffer) == alt ==> 1049 !in parameters[..i])
                    && buffer == old(buffer) && saved == old(saved) && main[..] == old(main[..])
        invariant i > |parameters| ==> question && 1049 in parameters && old(buffer) == alt && MainRestored()
        invariant Look() == (if i > |parameters| then old(Look()).OnMain() else old(Look())).(visible := cursorVisible)
        invariant cursorVisible ==
                    (old(cursorVisible) && 25 !in if i <= |parameters| then parameters[..i] else Before1049(parameters))
        decreases |parameters| - i
      {
        var n := parameters[i];
        if n == 25 {
          ShowCursor(false);
        }
        assert parameters[..i + 1] == parameters[..i] + [n];
        if n == 1049 && buffer == alt {
          Before1049Is(parameters, i);
          LeaveAlternate();
          i := cells;
        }
        i := i + 1;
      }
      if i == |parameters| {
        assert parameters[..i] == parameters;
        if old(buffer) == alt {
          Before1049Is(parameters, i);
        }
      }
    }

    // ----- Escape sequences

    /** While the alternate screen is shown the main one stays as it is; then it comes back, or it is reset. */
    twostate predicate MainSafe()
      reads this, main, alt
    {
      old(buffer) == alt ==>
        (buffer == alt && main[..] == old(main[..]) && saved == old(saved)) || MainRestored() || IsReset()
    }

    /** The alternate screen stays, and with it what is saved of the main one. */
    twostate predicate StaysAlternate()
      reads this, main
    {
      old(buffer) == alt ==> buffer == alt && main[..] == old(main[..]) && saved == old(saved)
    }

    lemma ScreenFacts()
      requires Sound()
      ensures 0 <= x < columns && 0 <= y < rows
    {
    }

    // The control sequences that move the cursor.
    method CursorSequence(kind: nat, parameters: seq<nat>, ghost question: bool)
      requires Sound() && (kind in CURSOR_KINDS || kind == 0x49 || kind == 0x5A)
      modifies this`x, this`y, this`wrapDelay
      ensures Sound()
      ensures old(Look()).Valid() && Carried(old(Look()), Look(), kind, question, parameters)
    {
      hide AttributeOk, Shape, ScreenOk, SavedOk, TabsOk, View.Target, View.CellsAfter, AllShown, Forward, Backward;
      hide Look, View.Valid, View.After;
      LookValid();
      LookFields();
      GeometryFacts();
      ScreenFacts();
      Look().AfterMove(kind, question, parameters, attribute);
      var n, m := Parameter(parameters, 0, 1), Parameter(parameters, 1, 1);
      if kind in CURSOR_KINDS {
        MoveCursor(kind, n, m);
      } else if kind == 0x49 {
        ForwardTabs(n);
      } else {
        BackwardTabs(n);
      }
    }

    // The control sequences that change the tab stops, the region or what is saved of the cursor.
    method StateSequence(kind: nat, parameters: seq<nat>, ghost question: bool)
      requires Sound() && kind !in {0x49, 0x5A, 0x68, 0x6C, 0x6D} && kind !in CURSOR_KINDS && kind !in CELL_KINDS
      modifies this`x, this`y, this`wrapDelay, this`scrollFirst, this`scrollLast, this`attribute, tabs
      modifies this`savedAttribute, this`savedX, this`savedY, this`saved
      ensures Sound() && saved == old(saved)
      ensures old(Look()).Valid() && Carried(old(Look()), Look(), kind, question, parameters)
    {
      hide AttributeOk, Shape, ScreenOk, SavedOk, TabsOk, View.Target, View.CellsAfter, AllShown, Forward, Backward;
      hide TabsAfter, View.CursorSaved, View.CursorRestored;
      LookValid();
      LookFields();
      GeometryFacts();
      if kind == 0x67 {
        ClearTabs(Parameter(parameters, 0, 0));
      } else if kind == 0x72 {
        SetRegion(Parameter(parameters, 0, 0), Parameter(parameters, 1, 0));
      } else if kind == 0x73 {
        if |parameters| == 0 {
          HandleState(SaveCursor);
        }
      } else if kind == 0x75 {
        if |parameters| == 0 {
          HandleState(RestoreCursor);
        }
      }
    }

    method LineSequence(kind: nat, parameters: seq<nat>)
      requires Sound() && kind in {0x4C, 0x4D, 0x53, 0x54}
      modifies this`scrollFirst, buffer
      ensures Sound() && scrollFirst == old(scrollFirst) && buffer.Length == cells
      ensures old(Look()).Valid() && AllShown(buffer[..]) == old(Look()).CellsAfter(kind, parameters)
    {
      hide AttributeOk, Shape, TabsOk, SavedOk, ScreenOk, PlaceOf, DisplayRange, LineRange;
      hide Shown, AllShown, LinesDown, LinesUp, View.CellsAfter;
      BufferIsScreen();
      LookValid();
      Look().CellsAfterLines(kind, parameters);
      ShownLength(buffer[..]);
      var n := Parameter(parameters, 0, 1);
      if kind == 0x4C || kind == 0x4D {
        ShiftLines(n, kind == 0x4C);
      } else {
        ScrollLines(n, kind == 0x54);
      }
    }

    method CharSequence(kind: nat, parameters: seq<nat>)
      requires Sound() && kind in {0x40, 0x4A, 0x4B, 0x50, 0x58}
      modifies buffer
      ensures Sound() && buffer.Length == cells
      ensures old(Look()).Valid() && AllShown(buffer[..]) == old(Look()).CellsAfter(kind, parameters)
    {
      hide AttributeOk, Shape, TabsOk, SavedOk, ScreenOk, PlaceOf, DisplayRange, LineRange;
      hide Shown, AllShown, Inserted, Deleted, Erased;
      BufferIsScreen();
      LookValid();
      ShownLength(buffer[..]);
      var n := Parameter(parameters, 0, 1);
      if kind == 0x40 || kind == 0x50 {
        ShiftChars(n, kind == 0x40);
      } else if kind == 0x4A || kind == 0x4B {
        Erase(Parameter(parameters, 0, 0), kind == 0x4B);
      } else {
        EraseChars(n);
      }
    }

    // The control sequences that change cells of the screen that is shown.
    method CellSequence(kind: nat, parameters: seq<nat>)
      requires Sound() && kind in CELL_KINDS
      modifies this`scrollFirst, buffer
      ensures Sound() && buffer.Length == cells
      ensures old(Look()).Valid() && Look() == old(Look()).(cells := old(Look()).CellsAfter(kind, parameters))
    {
      hide AttributeOk, Shape, TabsOk, SavedOk, ScreenOk, View.CellsAfter, AllShown;
      GeometryFacts();
      BufferIsScreen();
      LookValid();
      if kind in {0x4C, 0x4D, 0x53, 0x54} {
        LineSequence(kind, parameters);
      } else {
        CharSequence(kind, parameters);
      }
    }

    static lemma AtMost16(s: seq<nat>)
      ensures Parameters(s).Good? ==> |Parameters(s).values| <= COUNT_LIMIT
    {
    }

    // The sequences ESC and a character.
    method PlainSequence(kind: nat)
      requires Sound()
      modifies this, main, alt, tabs
      ensures Sound() && MainSafe() && (utf8State == old(utf8State) || utf8State == 0)
      ensures escSize == old(escSize) || escSize == 0
      ensures kind != 0x63 ==> StaysAlternate()
      ensures old(Look()).Valid() && Look() == old(Look()).AfterPlain(kind)
    {
      hide AttributeOk, Shape, TabsOk, SavedOk, AllShown, MainRestored, ScrolledDown, EscOk, View.CellsAfter;
      LookValid();
      BufferIsScreen();
      GeometryFacts();
      if kind == 0x63 {
        Reset();
      } else if kind == 0x48 {
        SetTab();
      } else if kind == 0x4D {
        if y == scrollFirst {
          ScrollDown();
        } else if y > 0 {
          y := y - 1;
        }
      } else if kind == 0x37 {
        HandleState(SaveCursor);
      } else if kind == 0x38 {
        HandleState(RestoreCursor);
      }
    }

    /** CSI m */
    method Select(parameters: seq<nat>)
      requires Sound()
      modifies this`attribute
      ensures Sound()
      ensures StyleOf(attribute)
              == AllSelected(StyleOf(old(attribute)), Applied(if parameters == [] then [0] else parameters))
      ensures Look() == old(Look()).(attribute := attribute)
    {
      hide AttributeOk, Shape, TabsOk, SavedOk, StyleOf, AllSelected, Applied;
      attribute := SelectGraphics(attribute, parameters);
    }

    method ControlSequence(kind: nat, question: bool, parameters: seq<nat>)
      requires Sound() && |parameters| <= COUNT_LIMIT
      modifies this, main, alt, tabs
      ensures Sound() && MainSafe() && escSize == old(escSize) && utf8State == old(utf8State)
      ensures kind != 0x6C ==> StaysAlternate()
      ensures old(Look()).Valid() && Carried(old(Look()), Look(), kind, question, parameters)
    {
      hide AttributeOk, Shape, TabsOk, SavedOk, AllShown, MainRestored, IsReset, ScreenOk, Look, View.Valid;
      hide View.CellsAfter, View.ModesSet, View.ModesReset, View.Target, StyleOf, AllSelected, Applied;
      LookValid();
      LookFields();
      BufferIsScreen();
      GeometryFacts();
      if kind == 0x6D {
        Select(parameters);
      } else if kind == 0x68 {
        SetModes(parameters, question);
      } else if kind == 0x6C {
        ResetModes(parameters, question);
      } else if kind in CELL_KINDS {
        CellSequence(kind, parameters);
      } else if kind in CURSOR_KINDS || kind == 0x49 || kind == 0x5A {
        CursorSequence(kind, parameters, question);
      } else {
        StateSequence(kind, parameters, question);
      }
    }

    /** con_handle_escape: the sequence in the escape buffer is carried out, or ignored if it makes no sense. */
    method HandleEscape()
      requires Sound() && 2 <= escSize < ESC_LIMIT
      requires esc[1] == 0x5B ==>
                 && 3 <= escSize && !IsInner(esc[escSize - 1]) && forall k | 2 <= k < escSize - 1 :: IsInner(esc[k])
      modifies this, main, alt, tabs
      ensures Sound() && MainSafe() && escSize < ESC_LIMIT && (utf8State == old(utf8State) || utf8State == 0)
      ensures old(esc[escSize - 1]) !in {0x63, 0x6C} ==> StaysAlternate()
      ensures old(Look()).Valid() && Finished(old(Look()), Look(), old(Begun()))
    {
      hide AttributeOk, Shape, TabsOk, SavedOk, ScreenOk, AllShown, IsReset, Parameters, Carried, View.AfterPlain, Look;
      GeometryFacts();
      BufferIsScreen();
      LookValid();
      var kind := esc[escSize - 1];
      if esc[1] != 0x5B {
        PlainSequence(kind);
        return;
      }
      var question := esc[2] == 0x3F;
      ghost var from := if question then 3 else 2;
      assert esc[from..escSize - 1] == Begun()[from..|Begun()| - 1];
      var parsed := ParseParameters(esc, if question then 3 else 2, escSize);
      if parsed.Bad? {
        return;
      }
      AtMost16(esc[from..escSize - 1]);
      ControlSequence(kind, question, parsed.values);
    }

    // ----- Characters

    static lemma ShownWith(b: seq<bv32>, k: int, v: bv32)
      requires 0 <= k < |b|
      ensures AllShown(b[k := v]) == AllShown(b)[k := Shown(v)]
    {
    }

    // The cell of the cursor, and the cursor to the next one.
    method PutCell(c: nat)
      requires Sound() && c <= 0xF_FFFF
      modifies this`x, this`wrapDelay, buffer
      ensures Sound() && 0 <= Place(old(x), y) < cells
      ensures buffer[..] == old(buffer[..])[Place(old(x), y) := Cell(c, attribute)]
      ensures x == Clip(old(x) + 1, columns - 1)
      ensures wrapDelay == (old(wrapDelay) || old(x) == columns - 1)
      ensures old(Look()).Valid() && Look() == old(Look()).Put(c)
    {
      hide AttributeOk, Shape, TabsOk, SavedOk, Shown, AllShown, Cell, PlaceOf;
      LookValid();
      GeometryFacts();
      BufferIsScreen();
      InScreen(x, y);
      ShownWith(buffer[..], Place(x, y), Cell(c, attribute));
      buffer[Place(x, y)] := Cell(c, attribute);
      x := x + 1;
      if x >= columns {
        x := columns - 1;
        wrapDelay := true;
      }
    }

    /** A printing character: it goes to the cell of the cursor, which moves on; in the last column the cursor stays
        and the next character wraps to a new line first. */
    method WriteChar(c: nat)
      requires Sound() && c <= 0xF_FFFF
      modifies this`x, this`y, this`wrapDelay, buffer
      ensures Sound()
      ensures !(old(wrapDelay) && old(x) == columns - 1) ==>
                && y == old(y) && 0 <= Place(old(x), y) < cells
                && buffer[..] == old(buffer[..])[Place(old(x), y) := Cell(c, attribute)]
                && x == Clip(old(x) + 1, columns - 1) && (old(x) == columns - 1 ==> wrapDelay)
      ensures old(wrapDelay) && old(x) == columns - 1 ==>
                && x == 1 && y == Clip(old(y) + 1, if old(y) == scrollLast then scrollLast else rows - 1)
                && 0 <= Place(0, y) < cells && buffer[Place(0, y)] == Cell(c, attribute)
      ensures old(Look()).Valid() && Look() == old(Look()).Written(c)
    {
      hide AttributeOk, Shape, TabsOk, SavedOk, Shown, AllShown, ScrolledUp, Cell, Place, View.NextLine, View.Put, View.Valid;
      LookValid();
      GeometryFacts();
      BufferIsScreen();
      if wrapDelay && x == columns - 1 {
        x := 0;
        IncrementRow();
        PutCell(c);
      } else {
        PutCell(c);
      }
    }

    // The search of a horizontal tab.
    method FindTab() returns (offset: int)
      requires Sound()
      ensures x < columns - 1 ==> offset == NextStop(tabs[..], x)
      ensures x == columns - 1 ==> offset >= columns
    {
      hide AttributeOk, Shape, SavedOk, NextStop;
      GeometryFacts();
      var column: nat := x;
      var j: nat := column + 1;
      while j < columns
        invariant column < j <= columns
        invariant NextStop(tabs[..], column) == NextStop(tabs[..], j - 1)
        invariant j == columns ==> column == columns - 1
      {
        NextStopIs(tabs[..], j - 1);
        if tabs[j] {
          return j;
        }
        j := j + 1;
      }
      return 0x7FFF_FFFF;
    }

    /** A horizontal tab: the next tab stop, or the beginning of the next line from the last column. */
    method Tab()
      requires Sound()
      modifies this`x, this`y, buffer
      ensures Sound()
      ensures old(x) < columns - 1 ==> x == NextStop(tabs[..], old(x)) && y == old(y) && buffer[..] == old(buffer[..])
      ensures old(x) == columns - 1 ==> x == 0
      ensures old(Look()).Valid() && Look() ==
                if old(x) == columns - 1 then old(Look()).NextLine().(x := 0) else old(Look()).(x := NextStop(tabs[..], old(x)))
    {
      hide AttributeOk, Shape, SavedOk, Shown, AllShown, ScrolledUp, NextStop, View.NextLine, View.Valid;
      LookValid();
      GeometryFacts();
      BufferIsScreen();
      var offset := FindTab();
      if offset >= columns {
        IncrementRow();
        offset := 0;
      }
      x := offset;
    }

    method ClearEscape()
      requires Shape()
      modifies this`escSize, esc
      ensures EscOk() && escSize == 0
    {
      for k := 0 to esc.Length
        modifies esc
      {
        esc[k] := 0;
      }
      escSize := 0;
    }

    lemma NewState()
      ensures Decodable(0)
    {
    }

    // The last character of a sequence: it is carried out.
    method FinishEscape(c: nat, short: bool)
      requires Valid() && 0 < escSize && escSize + 2 <= ESC_LIMIT && (short ==> escSize == 1)
      requires (0x40 <= c <= 0x7E && c != 0x5B) || (escSize == 1 && (c == 0x37 || c == 0x38))
      modifies this, main, alt, tabs, esc
      ensures Valid() && MainSafe() && (c !in {0x63, 0x6C} ==> StaysAlternate())
      ensures utf8State == old(utf8State) || utf8State == 0
      ensures old(Look()).Valid() && Finished(old(Look()), Look(), old(Begun()) + [c]) && Begun() == []
    {
      hide AttributeOk, Shape, TabsOk, SavedOk, ScreenOk, AllShown, IsReset, Finished, View.Valid;
      hide Look, Decodable;
      NewState();
      GeometryFacts();
      BufferIsScreen();
      LookValid();
      ghost var begun := Begun();
      esc[escSize] := c;
      escSize := escSize + 1;
      assert Begun() == begun + [c];
      HandleEscape();
      BufferIsScreen();
      if short {
        esc[0], esc[1] := 0, 0;
        escSize := 0;
      } else {
        ClearEscape();
      }
    }

    // The part of con_write_locked for a sequence that has begun.  The answer is whether it took the character.
    method TakeEscape(c: nat) returns (done: bool)
      requires Valid() && escSize > 0
      modifies this, main, alt, tabs, esc
      ensures Valid() && MainSafe() && (c !in {0x63, 0x6C} ==> StaysAlternate())
      ensures utf8State == old(utf8State) || utf8State == 0
      ensures !done ==>
                && buffer == old(buffer) && main[..] == old(main[..]) && saved == old(saved) && alt[..] == old(alt[..])
                && x == old(x) && y == old(y) && attribute == old(attribute)
      ensures old(Look()).Valid() && Taken(old(Look()), old(Begun()), done, Look(), Begun(), c)
    {
      hide AttributeOk, Shape, TabsOk, SavedOk, ScreenOk, AllShown, IsReset, MainRestored, Decodable, Finished, View.Valid;
      hide Look;
      GeometryFacts();
      LookValid();
      BegunFacts();
      BufferIsScreen();
      ghost var begun := Begun();
      done := true;
      if escSize == 1 && (c == 0x37 || c == 0x38) {
        FinishEscape(c, true);
      } else if escSize + 2 > ESC_LIMIT {
        ClearEscape();
        done := false;
      } else if 0x20 <= c <= 0x3F || c == 0x5B {
        esc[escSize] := c;
        escSize := escSize + 1;
        assert Begun() == begun + [c];
      } else if 0x40 <= c <= 0x7E {
        FinishEscape(c, false);
      } else {
        done := false;
      }
    }

    // The beginning of a sequence: ESC, or ESC and [ for the one character that stands for both.
    method BeginEscape(control: bool)
      requires Shape() && EscOk()
      modifies this`escSize, esc
      ensures EscOk() && escSize > 0 && Begun() == if control then [0x1B, 0x5B] else [0x1B]
    {
      hide Shape;
      GeometryFacts();
      if escSize != 0 {
        ClearEscape();
      }
      esc[escSize] := 0x1B;
      escSize := escSize + 1;
      if control {
        esc[escSize] := 0x5B;
        escSize := escSize + 1;
      }
    }

    // After each character: only in the last column a wrap can be due.
    method Settle()
      modifies this`wrapDelay
      ensures Look() == old(Look()).Settled() && (old(Sound()) ==> Sound())
    {
      if x != columns - 1 {
        wrapDelay := false;
      }
    }

    method SetColumn(column: int)
      requires Sound() && 0 <= column < columns
      modifies this`x
      ensures Sound() && x == column && Look() == old(Look()).(x := column)
    {
      hide AttributeOk, Shape, TabsOk, SavedOk, AllShown;
      x := column;
    }

    // The control characters; the answer is whether it is none.
    method Control(c: nat) returns (normal: bool)
      requires Valid() && c <= 0xF_FFFF
      modifies this`x, this`y, this`escSize, buffer, esc
      ensures Valid() && normal == (c !in {0x07, 0x08, 0x09, 0x0A, 0x0D, 0x0E, 0x0F, 0x1B, 0x7F, 0x9B})
      ensures normal ==> x == old(x) && y == old(y) && buffer[..] == old(buffer[..]) && escSize == old(escSize)
      ensures old(Look()).Valid() && Look() == if normal then old(Look()) else old(Look()).Acted(c)
      ensures Begun() == if c == 0x1B then [0x1B] else if c == 0x9B then [0x1B, 0x5B] else old(Begun())
    {
      hide AttributeOk, Shape, TabsOk, SavedOk, Shown, AllShown, ScrolledUp, Cell, Place, EscOk;
      hide View.NextLine, View.Written, View.Valid, NextStop, Decodable, Look;
      LookValid();
      LookFields();
      ScreenFacts();
      GeometryFacts();
      BufferIsScreen();
      normal := false;
      match c {
        case 0x07 | 0x0E | 0x0F | 0x7F =>
        case 0x08 =>
          SetColumn(x - if x > 0 then 1 else 0);
        case 0x09 =>
          Tab();
        case 0x0A =>
          SetColumn(0);
          IncrementRow();
        case 0x0D =>
          SetColumn(0);
        case 0x1B =>
          BeginEscape(false);
        case 0x9B =>
          BeginEscape(true);
        case _ =>
          normal := true;
      }
    }

    // The last part of con_write_locked: a control character or a printing one.
    method Interpret(c: nat)
      requires Valid() && c <= 0xF_FFFF
      modifies this`x, this`y, this`wrapDelay, this`escSize, buffer, esc
      ensures Valid()
      ensures 0x20 <= c <= 0x7E && old(x) < columns - 1 ==>
                && x == old(x) + 1 && y == old(y) && escSize == old(escSize)
                && 0 <= Place(old(x), y) < cells
                && buffer[..] == old(buffer[..])[Place(old(x), y) := Cell(if c == 0x20 then 0 else c, attribute)]
      ensures old(Look()).Valid() && Outside(old(Look()), old(Begun()), Look(), Begun(), c)
    {
      hide AttributeOk, Shape, TabsOk, SavedOk, Shown, AllShown, Cell, Place, EscOk, View.Written, View.Valid;
      hide ScreenOk, Look, View.NextLine, NextStop, Begun;
      LookValid();
      ScreenFacts();
      GeometryFacts();
      BufferIsScreen();
      var normal := Control(c);
      if normal {
        WriteChar(if c == 0x20 then 0 else c);
      }
      Settle();
    }

    /** One character of con_write_locked. */
    method PutChar(c: nat)
      requires Valid() && c <= 0xF_FFFF
      modifies this, main, alt, tabs, esc
      ensures Valid() && MainSafe() && (c !in {0x63, 0x6C} ==> StaysAlternate())
      ensures utf8State == old(utf8State) || utf8State == 0
      ensures 0x20 <= c <= 0x7E && old(escSize) == 0 && old(x) < columns - 1 ==>
                && x == old(x) + 1 && y == old(y) && escSize == 0 && attribute == old(attribute) && buffer == old(buffer)
                && utf8State == old(utf8State) && 0 <= Place(old(x), y) < cells
                && buffer[..] == old(buffer[..])[Place(old(x), y) := Cell(if c == 0x20 then 0 else c, attribute)]
      ensures old(Look()).Valid() && Stepped(old(Look()), old(Begun()), Look(), Begun(), c)
    {
      hide AttributeOk, Shape, TabsOk, SavedOk, ScreenOk, AllShown, IsReset, MainRestored, EscOk, Cell, Place;
      hide Finished, Outside, View.Valid;
      GeometryFacts();
      LookValid();
      BegunFacts();
      BufferIsScreen();
      if c == 0x18 || c == 0x1A {
        ClearEscape();
        return;
      }
      if escSize != 0 {
        var done := TakeEscape(c);
        if done {
          return;
        }
        BufferIsScreen();
      }
      Interpret(c);
    }

    predicate PlainText(data: seq<byte>)
    {
      forall k | 0 <= k < |data| :: 0x20 <= data[k] <= 0x7E
    }

    static lemma PlainByte(b: byte)
      requires 0x20 <= b <= 0x7E
      ensures Utf8.Step(0, b) == (0, b)
    {
    }

    // One round of con_write_locked.  The answer is whether the byte is looked at again.
    method TakeByte(b: byte) returns (again: bool, ghost c: nat)
      requires Valid() && b != 0
      modifies this, main, alt, tabs, esc
      ensures Valid() && (b != 0x63 && b != 0x6C ==> StaysAlternate())
      ensures old(Look()).Valid()
      ensures var (next, r) := Utf8.Step(old(utf8State), b);
              && utf8State == next && again == (r == Utf8.ERROR_RETRY)
              && (r == Utf8.WAITING ==> Look() == old(Look()) && Begun() == old(Begun()))
              && (r != Utf8.WAITING ==> c == CharOf(r) && Stepped(old(Look()), old(Begun()), Look(), Begun(), c))
      ensures 0x20 <= b <= 0x7E && old(utf8State) == 0 && old(escSize) == 0 && old(x) < columns - 1 ==>
                && x == old(x) + 1 && y == old(y) && escSize == 0 && attribute == old(attribute) && buffer == old(buffer)
                && utf8State == 0 && !again && 0 <= Place(old(x), y) < cells
                && buffer[..] == old(buffer[..])[Place(old(x), y) := Cell(if b == 0x20 then 0 else b, attribute)]
    {
      hide AttributeOk, Shape, TabsOk, SavedOk, ScreenOk, AllShown, IsReset, MainRestored, EscOk, Cell, Place;
      hide Decodable, Shown, Look, Begun, Stepped, View.Valid, Utf8.Step;
      LookValid();
      if 0x20 <= b <= 0x7E {
        PlainByte(b);
      }
      DecodedByte(utf8State, b);
      var (next, r) := Utf8.Step(utf8State, b);
      utf8State := next;
      c := 0;
      if r == Utf8.WAITING {
        return false, c;
      }
      Utf8.AnswerOrIdle(old(utf8State), b);
      var ch := if r < 0 || r > 0xF_FFFF then 0xFFFD else r;
      if ch == 0x0C || ch == 0x0B {
        ch := 0x0A;
      }
      c := ch;
      PutChar(ch);
      again := r == Utf8.ERROR_RETRY;
    }

    // One round of con_write_locked, with the moments so far.
    method Round(data: seq<byte>, i: nat, ghost goal: seq<nat>, ghost steps: seq<Moment>, ghost chars: seq<nat>)
      returns (next: nat, ghost more: seq<Moment>, ghost nowChars: seq<nat>)
      requires Valid() && i < |data|
      requires Traced(steps, chars) && steps != [] && steps[|steps| - 1] == Moment(Look(), Begun())
      requires chars + Characters(utf8State, data[i..]) == goal
      modifies this, main, alt, tabs, esc
      ensures Valid() && i <= next <= i + 1 && (next == i ==> utf8State < old(utf8State))
      ensures Traced(more, nowChars) && more != [] && more[0] == steps[0] && more[|more| - 1] == Moment(Look(), Begun())
      ensures nowChars + Characters(utf8State, data[next..]) == goal
      ensures data[i] != 0x63 && data[i] != 0x6C ==> StaysAlternate()
      ensures 0x20 <= data[i] <= 0x7E && old(utf8State) == 0 && old(escSize) == 0 && old(x) < columns - 1 ==>
                && x == old(x) + 1 && y == old(y) && escSize == 0 && attribute == old(attribute) && buffer == old(buffer)
                && utf8State == 0 && next == i + 1 && 0 <= Place(old(x), y) < cells
                && buffer[..] == old(buffer[..])[Place(old(x), y) := Cell(if data[i] == 0x20 then 0 else data[i], attribute)]
    {
      hide AttributeOk, Shape, TabsOk, SavedOk, ScreenOk, AllShown, IsReset, MainRestored, EscOk, Cell, Place;
      hide Decodable, Shown, Look, Begun, Stepped, View.Valid, Utf8.Step, Characters, Traced;
      ghost var state, before := utf8State, steps[|steps| - 1];
      NextCharacter(state, data, i, chars);
      DecodedByte(state, data[i]);
      var b := data[i];
      next, more, nowChars := i + 1, steps, chars;
      if b == 0 {
        return;
      }
      var again;
      ghost var c;
      again, c := TakeByte(b);
      if again {
        next := i;
      }
      if Utf8.Step(state, b).1 != Utf8.WAITING {
        assert Follows(before, Moment(Look(), Begun()), c);
        TracedMore(steps, chars, Moment(Look(), Begun()), c);
        more, nowChars := steps + [Moment(Look(), Begun())], chars + [c];
      }
    }

    lemma PlaceMore(column: int, row: int, i: int)
      ensures Place(column + i, row) == Place(column, row) + i
    {
    }

    // The cell under the cursor is drawn again.
    method Uncover(ghost text: seq<byte>)
      requires Valid()
      modifies buffer
      ensures Valid() && TextWritten(old(buffer[..]), buffer[..], Place(x, y), text, 0, attribute)
      ensures buffer == alt ==> main[..] == old(main[..])
      ensures Look() == old(Look())
    {
      hide AttributeOk, TabsOk, SavedOk, EscOk, Decodable, Shown;
      InScreen(x, y);
      if cursorVisible {
        var offset := Place(x, y);
        ShownTwice(buffer[offset]);
        ShownWith(buffer[..], offset, Shown(buffer[offset]));
        buffer[offset] := Shown(buffer[offset]);
      }
    }

    /** con_write_locked: on every stream of bytes the terminal stays sound, and it goes from moment to moment as the
        characters of the stream tell.  Unless a byte is one that can end the sequences which leave the alternate
        screen, that one stays and the main screen with it.  A control sequence is carried out, or changes nothing
        if it makes no sense, whatever sequence has begun before.  Plain text on a line with room goes to the cells from
        the cursor on. */
    method Write(data: seq<byte>) returns (ghost steps: seq<Moment>)
      requires Valid()
      modifies this, main, alt, tabs, esc
      ensures Valid()
      ensures Traced(steps, Characters(old(utf8State), data)) && steps != []
      ensures steps[0] == old(Moment(Look(), Begun())) && steps[|steps| - 1] == Moment(Look(), Begun())
      ensures IsSequence(data) && old(utf8State) == 0 ==>
                && old(Look()).Settled().Valid() && Begun() == []
                && Finished(old(Look()).Settled(), Look(), data)
      ensures (forall k | 0 <= k < |data| :: data[k] != 0x63 && data[k] != 0x6C) ==> StaysAlternate()
      ensures PlainText(data) && old(escSize) == 0 && old(utf8State) == 0 && old(x) + |data| < columns ==>
                && buffer == old(buffer) && x == old(x) + |data| && y == old(y) && attribute == old(attribute)
                && TextWritten(old(buffer[..]), buffer[..], old(Place(x, y)), data, |data|, attribute)
    {
      hide AttributeOk, Shape, TabsOk, SavedOk, ScreenOk, AllShown, IsReset, MainRestored, EscOk, Cell, Place, TextWritten;
      hide Decodable, Shown, Look, Begun, Stepped, View.Valid, Utf8.Step, Characters, Traced, Finished, IsSequence;
      GeometryFacts();
      BufferIsScreen();
      ghost var was, place := buffer[..], Place(x, y);
      ghost var plain := PlainText(data) && escSize == 0 && utf8State == 0 && x + |data| < columns;
      ghost var quiet := forall k | 0 <= k < |data| :: data[k] != 0x63 && data[k] != 0x6C;
      Uncover(data);
      steps := [Moment(Look(), Begun())];
      ghost var chars: seq<nat> := [];
      ghost var goal := Characters(utf8State, data);
      NothingTraced(steps[0]);
      assert data[0..] == data;
      var i := 0;
      while i < |data|
        invariant 0 <= i <= |data| && Valid()
        invariant Traced(steps, chars) && steps != [] && steps[0] == old(Moment(Look(), Begun())) && steps[|steps| - 1] == Moment(Look(), Begun())
        invariant chars + Characters(utf8State, data[i..]) == goal
        invariant quiet ==> StaysAlternate()
        invariant plain ==>
                    && escSize == 0 && utf8State == 0
                    && buffer == old(buffer) && x == old(x) + i && y == old(y) && attribute == old(attribute)
                    && TextWritten(was, buffer[..], place, data, i, attribute)
        decreases |data| - i, utf8State
      {
        ghost var at, now := i, buffer[..];
        PlaceMore(old(x), old(y), i);
        i, steps, chars := Round(data, i, goal, steps, chars);
        if plain {
          TextMore(was, now, buffer[..], place, data, at, attribute);
        }
      }
      assert data[i..] == [];
      NoCharacters(utf8State, chars);
      if IsSequence(data) && old(utf8State) == 0 {
        SequenceBytes(steps, data);
      }
    }
  }
}
