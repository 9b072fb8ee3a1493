/** What the terminal shows and remembers, as a value, and what characters and sequences make of it
    (kernel/base/console.c).
 */
module ConsoleViews {
  import opened Arithmetic
  import opened ConsoleCells
  import opened ConsoleEscape

  const ESC_LIMIT: nat := 128

  // A to H, d and f move the cursor; @ J K L M P S T X change cells.
  const CURSOR_KINDS: set<nat> := {0x41, 0x42, 0x43, 0x44, 0x45, 0x46, 0x47, 0x48, 0x64, 0x66}
  const CELL_KINDS: set<nat> := {0x40, 0x4A, 0x4B, 0x4C, 0x4D, 0x50, 0x53, 0x54, 0x58}

  /** What is saved when the alternate screen comes up. */
  datatype Saved = Saved(attribute: bv32, x: int, y: int, first: int, last: int)

  function Clip(v: int, high: int): int
  {
    if v < 0 then 0 else if v > high then high else v
  }

  // ----- Tab stops

  /** The next tab stop to the right, or the last column. */
  function NextStop(tabs: seq<bool>, x: nat): (j: nat)
    requires x < |tabs|
    ensures x <= j < |tabs|
    decreases |tabs| - x
  {
    if x + 1 >= |tabs| then |tabs| - 1 else if tabs[x + 1] then x + 1 else NextStop(tabs, x + 1)
  }

  /** The next tab stop to the left, or the first column. */
  function PreviousStop(tabs: seq<bool>, x: nat): (j: nat)
    requires x < |tabs|
    ensures j <= x
  {
    if x <= 1 then 0 else if tabs[x - 1] then x - 1 else PreviousStop(tabs, x - 1)
  }

  lemma NextStopIs(tabs: seq<bool>, x: nat)
    requires x < |tabs|
    ensures NextStop(tabs, x)
            == if x + 1 >= |tabs| then |tabs| - 1 else if tabs[x + 1] then x + 1 else NextStop(tabs, x + 1)
  {
  }

  function Forward(tabs: seq<bool>, x: nat, n: nat): (j: nat)
    requires x < |tabs|
    ensures x <= j < |tabs|
    decreases n
  {
    if n == 0 then x else Forward(tabs, NextStop(tabs, x), n - 1)
  }

  function Backward(tabs: seq<bool>, x: nat, n: nat): (j: nat)
    requires x < |tabs|
    ensures j <= x
    decreases n
  {
    if n == 0 then x else Backward(tabs, PreviousStop(tabs, x), n - 1)
  }

  lemma {:induction false} ForwardAtEnd(tabs: seq<bool>, n: nat)
    requires tabs != []
    ensures Forward(tabs, |tabs| - 1, n) == |tabs| - 1
  {
    if n > 0 {
      ForwardAtEnd(tabs, n - 1);
    }
  }

  lemma {:induction false} BackwardAtStart(tabs: seq<bool>, n: nat)
    requires tabs != []
    ensures Backward(tabs, 0, n) == 0
  {
    if n > 0 {
      BackwardAtStart(tabs, n - 1);
    }
  }

  /** The tab stops after CSI g. */
  function TabsAfter(stops: seq<bool>, column: int, n: int): (r: seq<bool>)
    ensures |r| == |stops|
  {
    seq(|stops|, k requires 0 <= k < |stops| =>
      stops[k] && !(k < |stops| - 1 && ((n == 0 && k == column) || n == 3)))
  }

  // ----- Places and lines

  /** The place of a cell. */
  function PlaceOf(column: int, row: int, columns: nat): int
  {
    column + row * columns
  }

  lemma PlaceInScreen(column: int, row: int, columns: nat, rows: nat)
    requires 0 <= column < columns && 0 <= row < rows
    ensures 0 <= row * columns <= PlaceOf(column, row, columns) < row * columns + columns <= columns * rows
  {
    Multiple(row, columns);
    Multiple(rows - row, columns);
    assert (rows - row) * columns == columns * rows - row * columns;
  }

  lemma LinesInScreen(first: int, last: int, columns: nat, rows: nat)
    requires 0 <= first <= last < rows
    ensures 0 <= first * columns && first * columns + columns <= (last + 1) * columns <= columns * rows
  {
    Multiple(first, columns);
    Multiple(last - first, columns);
    Multiple(rows - last - 1, columns);
    assert (last - first) * columns == last * columns - first * columns;
    assert (last + 1) * columns == last * columns + columns;
    assert (rows - last - 1) * columns == columns * rows - (last + 1) * columns;
  }

  /** n times a line further down (or up). */
  function LinesDown(b: seq<bv32>, from: nat, to: nat, width: nat, blank: bv32, n: nat): (s: seq<bv32>)
    requires from + width <= to <= |b|
    ensures |s| == |b|
  {
    if n == 0 then b else ScrolledDown(LinesDown(b, from, to, width, blank, n - 1), from, to, width, blank)
  }

  function LinesUp(b: seq<bv32>, from: nat, to: nat, width: nat, blank: bv32, n: nat): (s: seq<bv32>)
    requires from + width <= to <= |b|
    ensures |s| == |b|
  {
    if n == 0 then b else ScrolledUp(LinesUp(b, from, to, width, blank, n - 1), from, to, width, blank)
  }

  /** The cells that CSI J erases, as from and to. */
  function DisplayRange(n: int, place: int, cells: int): (int, int)
  {
    if n == 0 then (place, cells)
    else if n == 1 then (0, place + 1)
    else if n == 2 || n == 3 then (0, cells)
    else (0, 0)
  }

  /** The cells that CSI K erases. */
  function LineRange(n: int, place: int, line: int, columns: int): (int, int)
  {
    if n == 0 then (place, line + columns)
    else if n == 1 then (line, place + 1)
    else if n == 2 then (line, line + columns)
    else (0, 0)
  }

  /** A character in the colors of an attribute. */
  function Cell(c: nat, attribute: bv32): bv32
    requires c <= 0xF_FFFF
  {
    (c as bv32) | attribute
  }

  /** The parameter, or a value in its place if it is missing or zero. */
  function Parameter(parameters: seq<nat>, i: nat, otherwise: nat): (n: nat)
  {
    if |parameters| <= i || parameters[i] < 1 then otherwise else parameters[i]
  }

  /** The parameters in front of the first 1049. */
  function Before1049(ps: seq<nat>): (r: seq<nat>)
  {
    if ps == [] || ps[0] == 1049 then [] else [ps[0]] + Before1049(ps[1..])
  }

  lemma {:induction false} Before1049Is(ps: seq<nat>, i: nat)
    requires i <= |ps| && 1049 !in ps[..i] && (i < |ps| ==> ps[i] == 1049)
    ensures Before1049(ps) == ps[..i]
    decreases i
  {
    if i > 0 {
      assert ps[..i][0] == ps[0] && ps[..i] == [ps[0]] + ps[1..][..i - 1];
      Before1049Is(ps[1..], i - 1);
    }
  }

  // ----- The view

  /** The cells of the screen that is shown, those of the main screen while it is hidden, and the rest of the state but
      for the sequence and the character that have only begun. */
  datatype View = View(
    columns: nat, rows: nat, cells: seq<bv32>, alternate: bool, aside: seq<bv32>,
    x: int, y: int, first: int, last: int, attribute: bv32, delay: bool, tabs: seq<bool>,
    savedX: int, savedY: int, savedAttribute: bv32, saved: Saved, visible: bool)
  {
    ghost predicate Valid()
    {
      && |cells| == columns * rows && |tabs| == columns
      && 0 <= x < columns && 0 <= y < rows && 0 <= first <= last < rows
    }

    /** Where a cursor sequence leads: the moves of the sequence, cut off at the edges of the screen. */
    function Target(kind: nat, n: int, m: int): (int, int)
    {
      if kind == 0x41 then (x, Clip(y - n, rows - 1))                                // A
      else if kind == 0x42 then (x, Clip(y + n, rows - 1))                           // B
      else if kind == 0x43 then (Clip(x + n, columns - 1), y)                        // C
      else if kind == 0x44 then (Clip(x - n, columns - 1), y)                        // D
      else if kind == 0x45 then (0, Clip(y + n, rows - 1))                           // E
      else if kind == 0x46 then (0, Clip(y - n, rows - 1))                           // F
      else if kind == 0x47 then (Clip(n - 1, columns - 1), y)                        // G
      else if kind == 0x64 then (x, Clip(n - 1, rows - 1))                           // d
      else (Clip(m - 1, columns - 1), Clip(n - 1, rows - 1))                         // H and f
    }

    /** The cells after a control sequence. */
    ghost function CellsAfter(kind: nat, parameters: seq<nat>): (r: seq<bv32>)
      requires Valid()
      ensures |r| == |cells|
    {
      PlaceInScreen(x, y, columns, rows);
      LinesInScreen(first, last, columns, rows);
      var n, p := Parameter(parameters, 0, 1), Parameter(parameters, 0, 0);
      var here, line, below := PlaceOf(x, y, columns), y * columns, (last + 1) * columns;
      var count := if n > rows then rows else n;
      if kind == 0x40 then Inserted(cells, here, line + columns, n, attribute)
      else if kind == 0x50 then Deleted(cells, here, line + columns, n, attribute)
      else if kind == 0x4A then
        var (from, to) := DisplayRange(p, here, |cells|);
        Erased(cells, from, to, attribute)
      else if kind == 0x4B then
        var (from, to) := LineRange(p, here, line, columns);
        Erased(cells, from, to, attribute)
      else if kind == 0x58 then
        Erased(cells, here, if here + n < line + columns then here + n else line + columns, attribute)
      else if kind == 0x53 then LinesUp(cells, first * columns, below, columns, attribute, count)
      else if kind == 0x54 then LinesDown(cells, first * columns, below, columns, attribute, count)
      else if !(first <= y <= last) then cells
      else
        LinesInScreen(y, last, columns, rows);
        if kind == 0x4C then LinesDown(cells, line, below, columns, attribute, count)
        else if kind == 0x4D then LinesUp(cells, line, below, columns, attribute, count)
        else cells
    }

    /** L and M at the cursor, S and T in the whole region. */
    lemma CellsAfterLines(kind: nat, parameters: seq<nat>)
      requires Valid() && kind in {0x4C, 0x4D, 0x53, 0x54}
      ensures var from := if kind == 0x4C || kind == 0x4D then y else first;
              var n := Parameter(parameters, 0, 1);
              var count := if n > rows then rows else n;
              if !(first <= from <= last) then CellsAfter(kind, parameters) == cells
              else
                && 0 <= from * columns && from * columns + columns <= (last + 1) * columns <= |cells|
                && CellsAfter(kind, parameters) ==
                   if kind == 0x4C || kind == 0x54 then
                     LinesDown(cells, from * columns, (last + 1) * columns, columns, attribute, count)
                   else LinesUp(cells, from * columns, (last + 1) * columns, columns, attribute, count)
    {
      hide LinesDown, LinesUp;
      LinesInScreen(first, last, columns, rows);
      if first <= y <= last {
        LinesInScreen(y, last, columns, rows);
      }
    }

    function CursorSaved(): View
    {
      this.(savedX := x, savedY := y, savedAttribute := attribute)
    }

    function CursorRestored(): View
    {
      this.(x := savedX, y := savedY, attribute := savedAttribute, delay := false)
    }

    /** CSI ? 1049 h: an empty alternate screen; the main one is put aside. */
    function OnAlternate(): View
    {
      var blank := seq(|cells|, _ => 0);
      if alternate then this.(cells := blank)
      else this.(alternate := true, cells := blank, aside := cells, saved := Saved(attribute, x, y, first, last))
    }

    /** CSI ? 1049 l: the main screen as it was. */
    function OnMain(): View
    {
      if !alternate then this
      else this.(alternate := false, cells := aside, aside := [], attribute := saved.attribute, x := saved.x, y := saved.y,
                 first := saved.first, last := saved.last, delay := false)
    }

    /** CSI ? h: 1049 changes the screen, and 25 in front of it shows the cursor. */
    function ModesSet(parameters: seq<nat>): View
    {
      (if 1049 in parameters then OnAlternate() else this).(visible := visible || 25 in Before1049(parameters))
    }

    /** CSI ? l: the same the other way round; on the main screen 1049 means nothing. */
    function ModesReset(parameters: seq<nat>): View
    {
      (if 1049 in parameters then OnMain() else this)
      .(visible := visible && 25 !in if alternate then Before1049(parameters) else parameters)
    }

    function Region(n: nat, m: nat): View
    {
      var end := (if m > rows then rows else m) - 1;
      this.(last := end, first := Clip(n - 1, end))
    }

    /** One line down; at the end of the region it scrolls instead, and at the end of the screen nothing moves. */
    ghost function NextLine(): View
      requires Valid()
    {
      LinesInScreen(first, last, columns, rows);
      if y != last then this.(y := Clip(y + 1, rows - 1))
      else this.(cells := ScrolledUp(cells, first * columns, (last + 1) * columns, columns, attribute))
    }

    ghost function LineBefore(): View
      requires Valid()
    {
      LinesInScreen(first, last, columns, rows);
      if y != first then this.(y := Clip(y - 1, rows - 1))
      else this.(cells := ScrolledDown(cells, first * columns, (last + 1) * columns, columns, attribute))
    }

    /** A control sequence, by its last character; `a` is the attribute that CSI m leaves. */
    ghost function After(kind: nat, question: bool, parameters: seq<nat>, a: bv32): View
      requires Valid()
    {
      var n := Parameter(parameters, 0, 1);
      if kind == 0x6D then this.(attribute := a)
      else if kind == 0x68 then if question then ModesSet(parameters) else this
      else if kind == 0x6C then if question then ModesReset(parameters) else this
      else if kind in CELL_KINDS then this.(cells := CellsAfter(kind, parameters))
      else if kind in CURSOR_KINDS then
        var (column, row) := Target(kind, n, Parameter(parameters, 1, 1));
        this.(x := column, y := row, delay := false)
      else if kind == 0x49 then this.(x := Forward(tabs, x, n), delay := false)
      else if kind == 0x5A then this.(x := Backward(tabs, x, n), delay := false)
      else if kind == 0x67 then this.(tabs := TabsAfter(tabs, x, Parameter(parameters, 0, 0)))
      else if kind == 0x72 then Region(n, Parameter(parameters, 1, rows))
      else if kind == 0x73 then if parameters == [] then CursorSaved() else this
      else if kind == 0x75 then if parameters == [] then CursorRestored() else this
      else this
    }

    lemma AfterMove(kind: nat, question: bool, parameters: seq<nat>, a: bv32)
      requires Valid()
      ensures var n := Parameter(parameters, 0, 1);
              var (column, row) := Target(kind, n, Parameter(parameters, 1, 1));
              && (kind in CURSOR_KINDS ==> After(kind, question, parameters, a) == this.(x := column, y := row, delay := false))
              && (kind == 0x49 ==> After(kind, question, parameters, a) == this.(x := Forward(tabs, x, n), delay := false))
              && (kind == 0x5A ==> After(kind, question, parameters, a) == this.(x := Backward(tabs, x, n), delay := false))
    {
      hide View.Target, View.CellsAfter, Forward, Backward;
    }

    /** A plain sequence: c resets, H sets a tab stop, M goes one line up or scrolls down at the top of the region, 7
        saves the cursor and 8 restores it. */
    ghost function AfterPlain(kind: nat): View
      requires Valid()
    {
      if kind == 0x63 then Fresh(columns, rows)
      else if kind == 0x48 then this.(tabs := tabs[x := true])
      else if kind == 0x4D then LineBefore()
      else if kind == 0x37 then CursorSaved()
      else if kind == 0x38 then CursorRestored()
      else this
    }

    /** A printing character: it goes to the cell of the cursor, which moves on; in the last column the cursor stays
        and the next character wraps to a new line first. */
    ghost function Written(c: nat): View
      requires Valid() && c <= 0xF_FFFF
    {
      if delay && x == columns - 1 then this.(x := 0).NextLine().Put(c) else Put(c)
    }

    ghost function Put(c: nat): View
      requires Valid() && c <= 0xF_FFFF
    {
      PlaceInScreen(x, y, columns, rows);
      this.(cells := cells[PlaceOf(x, y, columns) := Shown(Cell(c, attribute))], x := Clip(x + 1, columns - 1),
            delay := delay || x == columns - 1)
    }

    /** A character outside of sequences: some control the cursor or start a sequence, the others are printed. */
    ghost function Interpreted(c: nat): View
      requires Valid() && c <= 0xF_FFFF
    {
      Acted(c).Settled()
    }

    ghost function Acted(c: nat): View
      requires Valid() && c <= 0xF_FFFF
    {
      if c in {0x07, 0x0E, 0x0F, 0x1B, 0x7F, 0x9B} then this
      else if c == 0x08 then this.(x := Clip(x - 1, columns - 1))
      else if c == 0x09 then
        if x == columns - 1 then NextLine().(x := 0) else this.(x := NextStop(tabs, x))
      else if c == 0x0A then this.(x := 0).NextLine()
      else if c == 0x0D then this.(x := 0)
      else Written(if c == 0x20 then 0 else c)
    }

    function Settled(): View
    {
      this.(delay := delay && x == columns - 1)
    }
  }

  /** A terminal after a reset. */
  function Fresh(columns: nat, rows: nat): View
  {
    View(columns, rows, seq(columns * rows, _ => 0), false, [], 0, 0, 0, rows - 1, DEFAULT, false,
         seq(columns, i requires 0 <= i < columns => i % 8 == 0 || i == columns - 1), 0, 0, 0, Saved(0, 0, 0, 0, 0), true)
  }

  /** A control sequence has been carried out. */
  ghost predicate Carried(v: View, w: View, kind: nat, question: bool, parameters: seq<nat>)
    requires v.Valid()
  {
    && w == v.After(kind, question, parameters, w.attribute)
    && (kind == 0x6D ==>
          StyleOf(w.attribute) == AllSelected(StyleOf(v.attribute), Applied(if parameters == [] then [0] else parameters)))
  }

  /** A whole sequence has been carried out; one that makes no sense changes nothing. */
  ghost predicate Finished(v: View, w: View, esc: seq<nat>)
    requires v.Valid() && |esc| >= 2
  {
    var kind := esc[|esc| - 1];
    if esc[1] != 0x5B then w == v.AfterPlain(kind)
    else
      |esc| >= 3 &&
      var question := esc[2] == 0x3F;
      var from := if question then 3 else 2;
      from < |esc| &&
      match Parameters(esc[from..|esc| - 1])
      case Bad => w == v
      case Good(values) => Carried(v, w, kind, question, values)
  }

  /** The character belongs to the sequence that has begun. */
  predicate InSequence(p: seq<nat>, c: nat)
  {
    || (|p| == 1 && (c == 0x37 || c == 0x38))
    || (|p| + 2 <= ESC_LIMIT && (IsInner(c) || 0x40 <= c <= 0x7E))
  }

  /** What is left of it by a character that does not: nothing, if it has become too long. */
  function Left(p: seq<nat>): seq<nat>
  {
    if |p| + 2 > ESC_LIMIT then [] else p
  }

  ghost predicate Taken(v: View, p: seq<nat>, done: bool, w: View, q: seq<nat>, c: nat)
    requires v.Valid() && p != []
  {
    && done == InSequence(p, c)
    && if !done then w == v && q == Left(p)
       else if IsInner(c) && !(|p| == 1 && (c == 0x37 || c == 0x38)) then w == v && q == p + [c]
       else Finished(v, w, p + [c]) && q == []
  }

  ghost predicate Outside(v: View, p: seq<nat>, w: View, q: seq<nat>, c: nat)
    requires v.Valid() && c <= 0xF_FFFF
  {
    w == v.Interpreted(c) && q == if c == 0x1B then [0x1B] else if c == 0x9B then [0x1B, 0x5B] else p
  }

  /** One character: p is the sequence that has begun, and q is it afterwards. */
  ghost predicate Stepped(v: View, p: seq<nat>, w: View, q: seq<nat>, c: nat)
    requires v.Valid() && c <= 0xF_FFFF
  {
    if c == 0x18 || c == 0x1A then w == v && q == []
    else if p == [] then Outside(v, p, w, q, c)
    else if InSequence(p, c) then Taken(v, p, true, w, q, c)
    else Outside(v, Left(p), w, q, c)
  }

  // ----- Runs

  datatype Moment = Moment(view: View, begun: seq<nat>)

  ghost predicate Follows(a: Moment, b: Moment, c: nat)
  {
    a.view.Valid() && c <= 0xF_FFFF && Stepped(a.view, a.begun, b.view, b.begun, c)
  }

  /** From moment to moment, one character after the other. */
  ghost predicate Traced(steps: seq<Moment>, chars: seq<nat>)
  {
    |steps| == |chars| + 1 && forall k | 0 <= k < |chars| :: Follows(steps[k], steps[k + 1], chars[k])
  }

  lemma TracedMore(steps: seq<Moment>, chars: seq<nat>, m: Moment, c: nat)
    requires Traced(steps, chars) && Follows(steps[|steps| - 1], m, c)
    ensures Traced(steps + [m], chars + [c])
  {
    hide Follows;
  }

  /** Inner characters are collected, and the rest stays. */
  lemma {:induction false} Collected(steps: seq<Moment>, chars: seq<nat>, k: nat)
    requires Traced(steps, chars) && 2 <= k <= |chars| && k + 1 < ESC_LIMIT
    requires chars[0] == 0x1B && chars[1] == 0x5B && forall j | 2 <= j < k :: IsInner(chars[j])
    ensures steps[0].view.Valid()
    ensures steps[k].view == steps[0].view.Settled() && steps[k].begun == chars[..k]
  {
    hide Finished, View.Valid;
    if k == 2 {
      assert Follows(steps[0], steps[1], chars[0]);
      assert Follows(steps[1], steps[2], chars[1]);
      assert chars[..2] == [0x1B] + [0x5B];
    } else {
      Collected(steps, chars, k - 1);
      assert Follows(steps[k - 1], steps[k], chars[k - 1]);
      assert chars[..k] == chars[..k - 1] + [chars[k - 1]];
    }
  }

  /** Whatever has begun before: ESC [ and what belongs to it up to its last character are one sequence, which is
      carried out, or changes nothing if it makes no sense. */
  lemma SequenceRuns(steps: seq<Moment>, chars: seq<nat>)
    requires Traced(steps, chars) && 3 <= |chars| && |chars| + 1 <= ESC_LIMIT
    requires chars[0] == 0x1B && chars[1] == 0x5B && forall j | 2 <= j < |chars| - 1 :: IsInner(chars[j])
    requires 0x40 <= chars[|chars| - 1] <= 0x7E && chars[|chars| - 1] != 0x5B
    ensures steps[0].view.Valid() && steps[0].view.Settled().Valid()
    ensures Finished(steps[0].view.Settled(), steps[|chars|].view, chars) && steps[|chars|].begun == []
  {
    hide Finished;
    var n := |chars| - 1;
    Collected(steps, chars, n);
    assert Follows(steps[n], steps[n + 1], chars[n]);
    assert chars == chars[..n] + [chars[n]];
  }

  lemma TracedLength(steps: seq<Moment>, chars: seq<nat>)
    requires Traced(steps, chars)
    ensures |steps| == |chars| + 1
  {
  }

  lemma {:induction false} JoinedInner(groups: seq<seq<nat>>)
    requires forall i | 0 <= i < |groups| :: forall j | 0 <= j < |groups[i]| :: IsDigit(groups[i][j])
    ensures forall j | 0 <= j < |Joined(groups)| :: IsInner(Joined(groups)[j]) && Joined(groups)[j] != 0x3F
    decreases |groups|
  {
    if groups != [] {
      JoinedInner(groups[1..]);
    }
  }

  lemma {:induction false} NumbersCount(groups: seq<seq<nat>>)
    requires forall i | 0 <= i < |groups| :: forall j | 0 <= j < |groups[i]| :: IsDigit(groups[i][j])
    ensures |Numbers(groups)| == |groups|
    decreases |groups|
  {
    if groups != [] {
      NumbersCount(groups[1..]);
    }
  }

  /** Written with its parameters as numbers, a sequence is carried out with these parameters. */
  lemma NumbersRun(steps: seq<Moment>, groups: seq<seq<nat>>, kind: nat)
    requires forall i | 0 <= i < |groups| :: forall j | 0 <= j < |groups[i]| :: IsDigit(groups[i][j])
    requires groups != [] && groups[|groups| - 1] != [] && |groups| <= COUNT_LIMIT
    requires 0x40 <= kind <= 0x7E && kind != 0x5B && |Joined(groups)| + 4 <= ESC_LIMIT
    requires Traced(steps, [0x1B, 0x5B] + Joined(groups) + [kind])
    ensures steps[0].view.Settled().Valid()
    ensures Carried(steps[0].view.Settled(), steps[|steps| - 1].view, kind, false, Numbers(groups))
  {
    hide Carried, Traced, View.Valid, Parse;
    var text := Joined(groups);
    var chars := [0x1B, 0x5B] + text + [kind];
    JoinedInner(groups);
    assert forall j | 2 <= j < |chars| - 1 :: chars[j] == text[j - 2];
    SequenceRuns(steps, chars);
    assert chars[2..|chars| - 1] == text;
    ParseJoined(groups);
    NumbersCount(groups);
    TracedLength(steps, chars);
  }
}
