/** What control sequences do on the screen, told by rows and columns (kernel/base/console.c). */
module ConsoleScreen {
  import opened Arithmetic
  import opened ConsoleCells
  import opened ConsoleEscape
  import opened ConsoleViews

  /** The i-th parameter is n; one that is missing or zero counts as `otherwise`. */
  predicate Says(parameters: seq<nat>, i: nat, n: nat, otherwise: nat)
  {
    n == if i < |parameters| && parameters[i] != 0 then parameters[i] else otherwise
  }

  function Least(a: int, b: int): int
  {
    if a < b then a else b
  }

  /** A sequence without a question mark that has the parameter n has been carried out. */
  ghost predicate Did(v: View, w: View, kind: nat, n: nat, otherwise: nat)
  {
    v.Valid() && exists ps: seq<nat> :: Says(ps, 0, n, otherwise) && Carried(v, w, kind, false, ps)
  }

  ghost predicate OnlyMoved(v: View, w: View)
  {
    w == v.(x := w.x, y := w.y, delay := false)
  }

  lemma StartsValid(v: View, w: View, kind: nat, n: nat, otherwise: nat)
    requires Did(v, w, kind, n, otherwise)
    ensures v.Valid()
  {
  }

  // ----- The cursor

  /** A and F go up, B and E go down, by n rows or as far as there are rows; A and B stay in the column, E and F go to
      the first one. */
  lemma UpAndDown(v: View, w: View, kind: nat, n: nat)
    requires Did(v, w, kind, n, 1) && kind in {0x41, 0x42, 0x45, 0x46}
    ensures OnlyMoved(v, w)
    ensures kind in {0x41, 0x46} ==> w.y <= v.y && v.y - w.y == Least(n, v.y)
    ensures kind in {0x42, 0x45} ==> w.y >= v.y && w.y - v.y == Least(n, v.rows - 1 - v.y)
    ensures w.x == if kind in {0x41, 0x42} then v.x else 0
  {
  }

  /** C goes right and D goes left, by n columns or as far as there are columns, in the same row. */
  lemma LeftAndRight(v: View, w: View, kind: nat, n: nat)
    requires Did(v, w, kind, n, 1) && kind in {0x43, 0x44}
    ensures OnlyMoved(v, w) && w.y == v.y
    ensures kind == 0x43 ==> w.x >= v.x && w.x - v.x == Least(n, v.columns - 1 - v.x)
    ensures kind == 0x44 ==> w.x <= v.x && v.x - w.x == Least(n, v.x)
  {
  }

  /** There and back again, where no edge is met. */
  lemma ThereAndBack(v: View, w: View, u: View, kind: nat, back: nat, n: nat)
    requires Did(v, w, kind, n, 1) && Did(w, u, back, n, 1)
    requires || (kind == 0x42 && back == 0x41 && v.y + n < v.rows) || (kind == 0x41 && back == 0x42 && n <= v.y)
             || (kind == 0x43 && back == 0x44 && v.x + n < v.columns) || (kind == 0x44 && back == 0x43 && n <= v.x)
    ensures u == v.(delay := false)
  {
    hide Did, View.Valid;
    StartsValid(v, w, kind, n, 1);
    StartsValid(w, u, back, n, 1);
    if kind in {0x41, 0x42} {
      UpAndDown(v, w, kind, n);
      UpAndDown(w, u, back, n);
    } else {
      LeftAndRight(v, w, kind, n);
      LeftAndRight(w, u, back, n);
    }
  }

  /** G and d choose the column and the row, which are counted from one; beyond the screen it is the last one. */
  lemma ColumnOrRow(v: View, w: View, kind: nat, n: nat)
    requires Did(v, w, kind, n, 1) && kind in {0x47, 0x64}
    ensures OnlyMoved(v, w)
    ensures kind == 0x47 ==> w.y == v.y && w.x == Least(n, v.columns) - 1
    ensures kind == 0x64 ==> w.x == v.x && w.y == Least(n, v.rows) - 1
  {
  }

  /** H and f choose both, the row first. */
  lemma RowAndColumn(v: View, w: View, kind: nat, ps: seq<nat>, n: nat, m: nat)
    requires v.Valid() && Carried(v, w, kind, false, ps) && kind in {0x48, 0x66}
    requires Says(ps, 0, n, 1) && Says(ps, 1, m, 1)
    ensures OnlyMoved(v, w) && w.y == Least(n, v.rows) - 1 && w.x == Least(m, v.columns) - 1
    ensures n <= v.rows && m <= v.columns ==> w.y + 1 == n && w.x + 1 == m
  {
  }

  /** G and d are its halves, in any order. */
  lemma HalfAndHalf(v: View, w: View, u: View, z: View, ps: seq<nat>, n: nat, m: nat)
    requires Did(v, w, 0x47, m, 1) && Did(w, u, 0x64, n, 1) && Carried(v, z, 0x48, false, ps)
    requires Says(ps, 0, n, 1) && Says(ps, 1, m, 1)
    ensures u == z
  {
    hide Did, Carried, Says;
    StartsValid(v, w, 0x47, m, 1);
    ColumnOrRow(v, w, 0x47, m);
    ColumnOrRow(w, u, 0x64, n);
    RowAndColumn(v, z, 0x48, ps, n, m);
  }

  // ----- Cells by row and column

  /** The cell in a column and a row. */
  function CellAt(v: View, column: nat, row: nat): bv32
    requires |v.cells| == v.columns * v.rows && column < v.columns && row < v.rows
  {
    PlaceInScreen(column, row, v.columns, v.rows);
    v.cells[PlaceOf(column, row, v.columns)]
  }

  /** Places go through the rows from left to right. */
  lemma PlacesInOrder(c: nat, r: nat, x: nat, y: nat, columns: nat)
    requires c < columns && x < columns
    ensures PlaceOf(c, r, columns) < PlaceOf(x, y, columns) <==> r < y || (r == y && c < x)
    ensures PlaceOf(c, r, columns) == PlaceOf(x, y, columns) <==> r == y && c == x
  {
    if r < y {
      Multiple(y - r - 1, columns);
      assert (y - r - 1) * columns == y * columns - r * columns - columns;
    } else if r > y {
      Multiple(r - y - 1, columns);
      assert (r - y - 1) * columns == r * columns - y * columns - columns;
    }
  }

  /** Only cells have changed. */
  ghost predicate OnlyCells(v: View, w: View)
  {
    w == v.(cells := w.cells) && |w.cells| == |v.cells|
  }

  /** Which cells CSI J erases: those from the cursor on, those up to it, or all. */
  predicate InDisplay(n: nat, before: bool, here: bool)
  {
    match n
    case 0 => !before
    case 1 => before || here
    case 2 => true
    case 3 => true
    case _ => false
  }

  /** J erases from the cursor to the end of the screen, from its start to the cursor, or everything. */
  lemma ErasesDisplay(v: View, w: View, n: nat, c: nat, r: nat)
    requires Did(v, w, 0x4A, n, 0) && c < v.columns && r < v.rows
    ensures v.Valid() && OnlyCells(v, w)
    ensures CellAt(w, c, r) ==
            if InDisplay(n, r < v.y || (r == v.y && c < v.x), r == v.y && c == v.x) then v.attribute else CellAt(v, c, r)
  {
    PlacesInOrder(c, r, v.x, v.y, v.columns);
    PlacesInOrder(v.x, v.y, c, r, v.columns);
    PlaceInScreen(c, r, v.columns, v.rows);
    PlaceInScreen(v.x, v.y, v.columns, v.rows);
  }

  /** K does the same within the row of the cursor. */
  lemma ErasesLine(v: View, w: View, n: nat, c: nat, r: nat)
    requires Did(v, w, 0x4B, n, 0) && c < v.columns && r < v.rows
    ensures v.Valid() && OnlyCells(v, w)
    ensures CellAt(w, c, r) ==
            if r == v.y && n != 3 && InDisplay(n, c < v.x, c == v.x) then v.attribute else CellAt(v, c, r)
  {
    PlacesInOrder(c, r, v.x, v.y, v.columns);
    PlacesInOrder(c, r, 0, v.y, v.columns);
    PlacesInOrder(v.columns - 1, v.y, c, r, v.columns);
    PlaceInScreen(c, r, v.columns, v.rows);
    PlaceInScreen(v.x, v.y, v.columns, v.rows);
  }

  lemma SameRow(v: View, c: nat, r: nat)
    requires v.Valid() && c < v.columns && r < v.rows
    ensures PlaceOf(c, r, v.columns) - PlaceOf(v.x, r, v.columns) == c - v.x
    ensures r * v.columns <= PlaceOf(c, r, v.columns) < r * v.columns + v.columns
    ensures v.y * v.columns <= PlaceOf(c, r, v.columns) < v.y * v.columns + v.columns <==> r == v.y
    ensures 0 <= PlaceOf(c, r, v.columns) < |v.cells|
  {
    PlacesInOrder(c, r, 0, v.y, v.columns);
    PlacesInOrder(v.columns - 1, v.y, c, r, v.columns);
    PlaceInScreen(c, r, v.columns, v.rows);
  }

  /** X erases n cells from the cursor on, but only in the row of the cursor. */
  lemma ErasesCells(v: View, w: View, n: nat, c: nat, r: nat)
    requires Did(v, w, 0x58, n, 1) && c < v.columns && r < v.rows
    ensures v.Valid() && OnlyCells(v, w)
    ensures CellAt(w, c, r) == if r == v.y && v.x <= c < v.x + n then v.attribute else CellAt(v, c, r)
  {
    SameRow(v, c, r);
  }

  /** @ makes room for n cells at the cursor: those behind move to the right, and the last ones leave the row. */
  lemma InsertsCells(v: View, w: View, n: nat, c: nat, r: nat)
    requires Did(v, w, 0x40, n, 1) && c < v.columns && r < v.rows
    ensures v.Valid() && OnlyCells(v, w)
    ensures CellAt(w, c, r) ==
            if r != v.y || c < v.x then CellAt(v, c, r)
            else if c < v.x + n then v.attribute
            else CellAt(v, c - n, r)
  {
    SameRow(v, c, r);
    if r == v.y && v.x + n <= c {
      SameRow(v, c - n, r);
    }
  }

  /** P takes n cells away at the cursor: those behind move to the left, and the last ones are blank. */
  lemma DeletesCells(v: View, w: View, n: nat, c: nat, r: nat)
    requires Did(v, w, 0x50, n, 1) && c < v.columns && r < v.rows
    ensures v.Valid() && OnlyCells(v, w)
    ensures CellAt(w, c, r) ==
            if r != v.y || c < v.x then CellAt(v, c, r)
            else if c + n < v.columns then CellAt(v, c + n, r)
            else v.attribute
  {
    SameRow(v, c, r);
    if r == v.y && v.x <= c && c + n < v.columns {
      SameRow(v, c + n, r);
    }
  }

  // ----- Lines

  lemma {:induction false} LinesDownIs(b: seq<bv32>, from: nat, to: nat, width: nat, blank: bv32, n: nat, i: nat, k: nat)
    requires from + width <= to <= |b| && i < |b| && k == n * width
    ensures LinesDown(b, from, to, width, blank, n)[i] ==
            if from <= i < to then (if from + k <= i then b[i - k] else blank) else b[i]
  {
    if n > 0 {
      Multiple(n - 1, width);
      assert k == (n - 1) * width + width;
      LinesDownIs(b, from, to, width, blank, n - 1, i, k - width);
      if from + width <= i < to {
        LinesDownIs(b, from, to, width, blank, n - 1, i - width, k - width);
      }
    }
  }

  lemma {:induction false} LinesUpIs(b: seq<bv32>, from: nat, to: nat, width: nat, blank: bv32, n: nat, i: nat, k: nat)
    requires from + width <= to <= |b| && i < |b| && k == n * width
    ensures LinesUp(b, from, to, width, blank, n)[i] ==
            if from <= i < to then (if i + k < to then b[i + k] else blank) else b[i]
  {
    if n > 0 {
      Multiple(n - 1, width);
      assert k == (n - 1) * width + width;
      LinesUpIs(b, from, to, width, blank, n - 1, i, k - width);
      if from <= i < to - width {
        LinesUpIs(b, from, to, width, blank, n - 1, i + width, k - width);
      }
    }
  }

  /** The place of a cell n rows further down, and the places of the rows from `from` to `last`. */
  lemma RowsApart(c: nat, r: nat, n: nat, from: nat, last: nat, columns: nat)
    requires c < columns
    ensures PlaceOf(c, r + n, columns) == PlaceOf(c, r, columns) + n * columns
    ensures from * columns <= PlaceOf(c, r, columns) < (last + 1) * columns <==> from <= r <= last
  {
    assert (r + n) * columns == r * columns + n * columns;
    PlacesInOrder(c, r, 0, from, columns);
    PlacesInOrder(c, r, 0, last + 1, columns);
  }

  /** The cell of row r after the lines from `from` to `last` have moved down by n rows. */
  ghost function MovedDown(v: View, from: nat, n: nat, c: nat, r: nat): bv32
    requires v.Valid() && c < v.columns && r < v.rows
  {
    if !(from <= r <= v.last) then CellAt(v, c, r)
    else if r < from + n then v.attribute
    else CellAt(v, c, r - n)
  }

  ghost function MovedUp(v: View, from: nat, n: nat, c: nat, r: nat): bv32
    requires v.Valid() && c < v.columns && r < v.rows
  {
    if !(from <= r <= v.last) then CellAt(v, c, r)
    else if r + n > v.last then v.attribute
    else CellAt(v, c, r + n)
  }

  lemma LinesDownByRow(v: View, from: nat, n: nat, c: nat, r: nat)
    requires v.Valid() && from <= v.last && c < v.columns && r < v.rows
    ensures 0 <= from * v.columns && from * v.columns + v.columns <= (v.last + 1) * v.columns <= |v.cells|
    ensures 0 <= PlaceOf(c, r, v.columns) < |v.cells|
    ensures LinesDown(v.cells, from * v.columns, (v.last + 1) * v.columns, v.columns, v.attribute, n)[PlaceOf(c, r, v.columns)]
            == MovedDown(v, from, n, c, r)
  {
    hide LinesDown;
    LinesInScreen(from, v.last, v.columns, v.rows);
    PlaceInScreen(c, r, v.columns, v.rows);
    Multiple(n, v.columns);
    LinesDownIs(v.cells, from * v.columns, (v.last + 1) * v.columns, v.columns, v.attribute, n, PlaceOf(c, r, v.columns),
                n * v.columns);
    RowsApart(c, r, 0, from, v.last, v.columns);
    if from <= r <= v.last {
      if from + n <= r {
        RowsApart(c, r - n, n, from, v.last, v.columns);
        PlaceInScreen(c, r - n, v.columns, v.rows);
      } else {
        RowsApart(c, from, n, from + n, v.last, v.columns);
        PlacesInOrder(c, r, 0, from + n, v.columns);
      }
    }
  }

  lemma LinesUpByRow(v: View, from: nat, n: nat, c: nat, r: nat)
    requires v.Valid() && from <= v.last && c < v.columns && r < v.rows
    ensures 0 <= from * v.columns && from * v.columns + v.columns <= (v.last + 1) * v.columns <= |v.cells|
    ensures 0 <= PlaceOf(c, r, v.columns) < |v.cells|
    ensures LinesUp(v.cells, from * v.columns, (v.last + 1) * v.columns, v.columns, v.attribute, n)[PlaceOf(c, r, v.columns)]
            == MovedUp(v, from, n, c, r)
  {
    hide LinesUp;
    LinesInScreen(from, v.last, v.columns, v.rows);
    PlaceInScreen(c, r, v.columns, v.rows);
    Multiple(n, v.columns);
    LinesUpIs(v.cells, from * v.columns, (v.last + 1) * v.columns, v.columns, v.attribute, n, PlaceOf(c, r, v.columns),
              n * v.columns);
    RowsApart(c, r, 0, from, v.last, v.columns);
    if from <= r <= v.last {
      RowsApart(c, r, n, from, v.last, v.columns);
      PlacesInOrder(c, r + n, 0, v.last + 1, v.columns);
    }
  }

  /** L and T move lines down by n rows: L those from the cursor to the end of the region, if the cursor is in it, and T
      the whole region.  Blank lines come in at the top. */
  lemma MovesLinesDown(v: View, w: View, kind: nat, n: nat, c: nat, r: nat)
    requires Did(v, w, kind, n, 1) && kind in {0x4C, 0x54} && c < v.columns && r < v.rows
    ensures v.Valid() && OnlyCells(v, w)
    ensures kind == 0x54 ==> CellAt(w, c, r) == MovedDown(v, v.first, n, c, r)
    ensures kind == 0x4C ==>
              CellAt(w, c, r) == if v.first <= v.y <= v.last then MovedDown(v, v.y, n, c, r) else CellAt(v, c, r)
  {
    hide LinesDown, LinesUp, View.CellsAfter;
    var ps: seq<nat> :| Says(ps, 0, n, 1) && Carried(v, w, kind, false, ps);
    v.CellsAfterLines(kind, ps);
    var from := if kind == 0x4C then v.y else v.first;
    if v.first <= from <= v.last {
      LinesDownByRow(v, from, if n > v.rows then v.rows else n, c, r);
    }
  }

  /** M and S move them up. */
  lemma MovesLinesUp(v: View, w: View, kind: nat, n: nat, c: nat, r: nat)
    requires Did(v, w, kind, n, 1) && kind in {0x4D, 0x53} && c < v.columns && r < v.rows
    ensures v.Valid() && OnlyCells(v, w)
    ensures kind == 0x53 ==> CellAt(w, c, r) == MovedUp(v, v.first, n, c, r)
    ensures kind == 0x4D ==>
              CellAt(w, c, r) == if v.first <= v.y <= v.last then MovedUp(v, v.y, n, c, r) else CellAt(v, c, r)
  {
    hide LinesDown, LinesUp, View.CellsAfter;
    var ps: seq<nat> :| Says(ps, 0, n, 1) && Carried(v, w, kind, false, ps);
    v.CellsAfterLines(kind, ps);
    var from := if kind == 0x4D then v.y else v.first;
    if v.first <= from <= v.last {
      LinesUpByRow(v, from, if n > v.rows then v.rows else n, c, r);
    }
  }

  // ----- Tab stops

  /** The number of tab stops in the columns from `from` on and in front of `end`. */
  ghost function Stops(tabs: seq<bool>, from: nat, end: nat): nat
    requires end <= |tabs|
    decreases end
  {
    if end <= from then 0 else Stops(tabs, from, end - 1) + if tabs[end - 1] then 1 else 0
  }

  lemma {:induction false} StopsSplit(tabs: seq<bool>, from: nat, mid: nat, end: nat)
    requires from <= mid <= end <= |tabs|
    ensures Stops(tabs, from, end) == Stops(tabs, from, mid) + Stops(tabs, mid, end)
    decreases end
  {
    if mid < end {
      StopsSplit(tabs, from, mid, end - 1);
    }
  }

  lemma {:induction false} NextIsFirst(tabs: seq<bool>, x: nat)
    requires x < |tabs|
    ensures var j := NextStop(tabs, x);
            x + 1 < |tabs| ==> x < j && Stops(tabs, x + 1, j) == 0 && (j < |tabs| - 1 ==> tabs[j])
    decreases |tabs| - x
  {
    if x + 1 < |tabs| && !tabs[x + 1] {
      NextIsFirst(tabs, x + 1);
      if x + 2 < |tabs| {
        StopsSplit(tabs, x + 1, x + 2, NextStop(tabs, x));
      }
    }
  }

  /** The n-th tab stop to the right, or the last column if there are fewer in front of it. */
  lemma {:induction false} ForwardIs(tabs: seq<bool>, x: nat, n: nat)
    requires x < |tabs| && n > 0
    ensures var j := Forward(tabs, x, n);
            && (j < |tabs| - 1 ==> x < j && tabs[j] && Stops(tabs, x + 1, j) == n - 1)
            && (j == |tabs| - 1 ==> Stops(tabs, x + 1, |tabs| - 1) < n)
    decreases n
  {
    NextIsFirst(tabs, x);
    var i := NextStop(tabs, x);
    var j := Forward(tabs, i, n - 1);
    if n > 1 && x + 1 < |tabs| {
      ForwardIs(tabs, i, n - 1);
      if i < |tabs| - 1 {
        var k := if j < |tabs| - 1 then j else |tabs| - 1;
        StopsSplit(tabs, x + 1, i + 1, k);
      }
    }
  }

  lemma {:induction false} PreviousIsLast(tabs: seq<bool>, x: nat)
    requires x < |tabs|
    ensures var j := PreviousStop(tabs, x);
            x > 0 ==> j < x && Stops(tabs, j + 1, x) == 0 && (j > 0 ==> tabs[j])
  {
    if x > 1 && !tabs[x - 1] {
      PreviousIsLast(tabs, x - 1);
    }
  }

  /** The n-th tab stop to the left, or the first column if there are fewer behind it. */
  lemma {:induction false} BackwardIs(tabs: seq<bool>, x: nat, n: nat)
    requires x < |tabs| && n > 0
    ensures var j := Backward(tabs, x, n);
            if j > 0 then j < x && tabs[j] && Stops(tabs, j + 1, x) == n - 1
            else Stops(tabs, 1, x) < n
    decreases n
  {
    PreviousIsLast(tabs, x);
    var i := PreviousStop(tabs, x);
    var j := Backward(tabs, i, n - 1);
    if n > 1 && x > 0 {
      BackwardIs(tabs, i, n - 1);
      if i > 0 {
        var k := if j > 0 then j + 1 else 1;
        StopsSplit(tabs, k, i, x);
        StopsSplit(tabs, i, i + 1, x);
      }
    }
  }

  /** I and Z go to the n-th tab stop to the right and to the left, in the same row. */
  lemma ToStops(v: View, w: View, kind: nat, n: nat)
    requires Did(v, w, kind, n, 1) && kind in {0x49, 0x5A}
    ensures v.Valid() && OnlyMoved(v, w) && w.y == v.y && 0 <= w.x < v.columns
    ensures kind == 0x49 ==>
              if w.x < v.columns - 1 then v.x < w.x && v.tabs[w.x] && Stops(v.tabs, v.x + 1, w.x) == n - 1
              else Stops(v.tabs, v.x + 1, v.columns - 1) < n
    ensures kind == 0x5A ==>
              if w.x > 0 then w.x < v.x && v.tabs[w.x] && Stops(v.tabs, w.x + 1, v.x) == n - 1
              else Stops(v.tabs, 1, v.x) < n
  {
    hide Forward, Backward, Stops;
    if n > 0 {
      ForwardIs(v.tabs, v.x, n);
      BackwardIs(v.tabs, v.x, n);
    }
  }

  /** g takes away the tab stop at the cursor, or with 3 all; the last column always has one.  ESC H sets one. */
  lemma ChangesStops(v: View, w: View, n: nat, k: nat)
    requires Did(v, w, 0x67, n, 0) && k < v.columns
    ensures v.Valid() && w == v.(tabs := w.tabs) && |w.tabs| == |v.tabs|
    ensures v.AfterPlain(0x48) == v.(tabs := v.tabs[v.x := true])
    ensures w.tabs[k] == (v.tabs[k] && (k == v.columns - 1 || (n != 3 && (n != 0 || k != v.x))))
  {
  }

  // ----- The region, the screens and what is saved

  /** r makes the rows from n to m the region; m is cut off at the end of the screen, and n at m. */
  lemma SetsRegion(v: View, w: View, ps: seq<nat>, n: nat, m: nat)
    requires v.Valid() && Carried(v, w, 0x72, false, ps) && Says(ps, 0, n, 1) && Says(ps, 1, m, v.rows)
    ensures w == v.(first := w.first, last := w.last) && w.Valid()
    ensures 1 <= n <= m <= v.rows ==> w.first + 1 == n && w.last + 1 == m
    ensures ps == [] ==> w.first == 0 && w.last == v.rows - 1
    ensures m > v.rows ==> w.last == v.rows - 1
    ensures n > m ==> w.first == w.last
  {
  }

  /** With 1049, h brings up an empty screen, and l brings the main one back with everything that belongs to it. */
  lemma ScreensAndBack(v: View, w: View, u: View)
    requires v.Valid() && !v.alternate && v.aside == [] && Carried(v, w, 0x68, true, [1049])
    ensures w.alternate && |w.cells| == |v.cells| && (forall k | 0 <= k < |w.cells| :: w.cells[k] == 0) && w.Valid()
    ensures w.visible == v.visible && w.x == v.x && w.y == v.y && w.tabs == v.tabs
    ensures Carried(w, u, 0x6C, true, [1049]) ==> u == v.(delay := false, saved := w.saved)
  {
  }

  /** With 25, h shows the cursor and l hides it, and nothing else changes. */
  lemma ShowsCursor(v: View, w: View, kind: nat)
    requires v.Valid() && Carried(v, w, kind, true, [25]) && kind in {0x68, 0x6C}
    ensures w == v.(visible := kind == 0x68)
  {
    assert Before1049([25]) == [25] by { Before1049Is([25], 1); }
  }

  lemma Saves(v: View, w: View)
    requires v.Valid() && (Carried(v, w, 0x73, false, []) || w == v.AfterPlain(0x37))
    ensures w == v.CursorSaved()
  {
  }

  lemma Restores(z: View, u: View)
    requires z.Valid() && (Carried(z, u, 0x75, false, []) || u == z.AfterPlain(0x38))
    ensures u == z.CursorRestored()
  {
  }

  /** What CSI s or ESC 7 saves, CSI u and ESC 8 bring back, wherever the cursor has gone in between. */
  lemma SavedAndBack(v: View, w: View, x: int, y: int, a: bv32, u: View)
    requires v.Valid() && (Carried(v, w, 0x73, false, []) || w == v.AfterPlain(0x37))
    requires var z := w.(x := x, y := y, attribute := a);
             z.Valid() && (Carried(z, u, 0x75, false, []) || u == z.AfterPlain(0x38))
    ensures w == v.(savedX := w.savedX, savedY := w.savedY, savedAttribute := w.savedAttribute)
    ensures u == w.(delay := false)
  {
    hide Carried, View.AfterPlain, View.Valid;
    Saves(v, w);
    Restores(w.(x := x, y := y, attribute := a), u);
  }

  // ----- Single characters

  /** Backspace goes back over a character that has been written, but not out of the row. */
  lemma WriteAndBack(v: View, c: nat)
    requires v.Valid() && 0x21 <= c <= 0x7E && v.x < v.columns - 1
    ensures var w := v.Interpreted(c);
            && w.Valid() && w.x == v.x + 1 && w.y == v.y && CellAt(w, v.x, v.y) == Shown(Cell(c, v.attribute))
            && w.Interpreted(0x08) == w.(x := v.x, delay := false)
    ensures v.Interpreted(0x08).x == if v.x == 0 then 0 else v.x - 1
  {
    PlaceInScreen(v.x, v.y, v.columns, v.rows);
  }

  lemma NextLineMoves(v: View, c: nat, r: nat)
    requires v.Valid() && c < v.columns && r < v.rows
    ensures var w := v.NextLine();
            && w.Valid() && w == v.(y := w.y, cells := w.cells)
            && w.y == (if v.y == v.last || v.y == v.rows - 1 then v.y else v.y + 1)
            && CellAt(w, c, r) == if v.y == v.last then MovedUp(v, v.first, 1, c, r) else CellAt(v, c, r)
  {
    LinesInScreen(v.first, v.last, v.columns, v.rows);
    LinesUpByRow(v, v.first, 1, c, r);
    var b := LinesUp(v.cells, v.first * v.columns, (v.last + 1) * v.columns, v.columns, v.attribute, 1);
    assert b == ScrolledUp(v.cells, v.first * v.columns, (v.last + 1) * v.columns, v.columns, v.attribute);
  }

  /** In the last column the cursor stays behind the first character, and the second one goes to the start of the next
      line. */
  lemma Wraps(v: View, c: nat, d: nat)
    requires v.Valid() && 0x21 <= c <= 0x7E && 0x21 <= d <= 0x7E && 0 < v.x == v.columns - 1 && !v.delay
    ensures var w := v.Interpreted(c);
            && w.Valid() && w.x == v.x && w.y == v.y && CellAt(w, v.x, v.y) == Shown(Cell(c, v.attribute))
            && var u := w.Interpreted(d);
               && u.Valid() && u.x == 1 && CellAt(u, 0, u.y) == Shown(Cell(d, v.attribute))
               && u.y == if v.y == v.last || v.y == v.rows - 1 then v.y else v.y + 1
  {
    hide View.NextLine;
    PlaceInScreen(v.x, v.y, v.columns, v.rows);
    var w := v.Interpreted(c);
    NextLineMoves(w.(x := 0), 0, v.y);
    PlaceInScreen(0, w.(x := 0).NextLine().y, v.columns, v.rows);
  }

  /** A newline goes to the start of the next row; at the end of the region its lines move up instead.  A carriage
      return stays in the row. */
  lemma NewLine(v: View, c: nat, r: nat)
    requires v.Valid() && c < v.columns && r < v.rows
    ensures var w := v.Interpreted(0x0A);
            && w.Valid() && w.x == 0 && w == v.(x := 0, y := w.y, delay := w.delay, cells := w.cells)
            && w.y == (if v.y == v.last || v.y == v.rows - 1 then v.y else v.y + 1)
            && CellAt(w, c, r) == if v.y == v.last then MovedUp(v, v.first, 1, c, r) else CellAt(v, c, r)
    ensures v.Interpreted(0x0D) == v.(x := 0, delay := v.delay && v.columns == 1)
  {
    hide View.NextLine, View.Written;
    NextLineMoves(v.(x := 0), c, r);
  }

  /** A tab goes to the next tab stop, and from the last column to the next line; some control characters do nothing, and
      a blank is written as an empty cell. */
  lemma TabsAndBlanks(v: View, c: nat)
    requires v.Valid()
    ensures var w := v.Interpreted(0x09);
            if v.x == v.columns - 1 then w.x == 0 && w.y == v.NextLine().y
            else OnlyMoved(v.(delay := w.delay), w.(delay := false)) && w.y == v.y && v.x < w.x < v.columns
                 && Stops(v.tabs, v.x + 1, w.x) == 0 && (w.x == v.columns - 1 || v.tabs[w.x])
    ensures c in {0x07, 0x0E, 0x0F, 0x1B, 0x7F, 0x9B} ==> v.Interpreted(c) == v.Settled()
    ensures v.x < v.columns - 1 ==>
              v.Interpreted(0x20).Valid() && CellAt(v.Interpreted(0x20), v.x, v.y) == Shown(v.attribute)
  {
    hide View.NextLine, Stops;
    NextIsFirst(v.tabs, v.x);
    NextLineMoves(v, 0, 0);
    PlaceInScreen(v.x, v.y, v.columns, v.rows);
  }

  /** ESC M goes up a row; at the start of the region its lines move down instead. */
  lemma LineUp(v: View, c: nat, r: nat)
    requires v.Valid() && c < v.columns && r < v.rows
    ensures var w := v.AfterPlain(0x4D);
            && w.Valid() && w == v.(y := w.y, cells := w.cells)
            && w.y == (if v.y == v.first || v.y == 0 then v.y else v.y - 1)
            && CellAt(w, c, r) == if v.y == v.first then MovedDown(v, v.first, 1, c, r) else CellAt(v, c, r)
  {
    LinesInScreen(v.first, v.last, v.columns, v.rows);
    LinesDownByRow(v, v.first, 1, c, r);
    var b := LinesDown(v.cells, v.first * v.columns, (v.last + 1) * v.columns, v.columns, v.attribute, 1);
    assert b == ScrolledDown(v.cells, v.first * v.columns, (v.last + 1) * v.columns, v.columns, v.attribute);
  }

  /** ESC c: an empty main screen, the cursor in its corner, the whole screen as the region, a tab stop in every eighth
      column and the last one, and white on black. */
  lemma Resets(v: View, k: nat)
    requires v.Valid() && k < v.columns
    ensures var w := v.AfterPlain(0x63);
            && w.Valid() && w.columns == v.columns && w.rows == v.rows && (forall i | 0 <= i < |w.cells| :: w.cells[i] == 0)
            && w.x == 0 && w.y == 0 && !w.delay && w.visible && !w.alternate && w.first == 0 && w.last == v.rows - 1
            && (w.tabs[k] <==> k % 8 == 0 || k == v.columns - 1)
            && StyleOf(w.attribute) == Style(false, false, false, 7, 0)
  {
    Multiple(v.columns, v.rows);
  }

  /** All other last characters mean nothing; h and l mean nothing without a question mark, and s and u nothing with
      parameters. */
  lemma Ignored(v: View, w: View, kind: nat, question: bool, ps: seq<nat>)
    requires v.Valid() && Carried(v, w, kind, question, ps)
    requires || !(0x40 <= kind <= 0x4D || kind in {0x50, 0x53, 0x54, 0x58, 0x5A, 0x64} || 0x66 <= kind <= 0x68
                  || kind in {0x6C, 0x6D, 0x72, 0x73, 0x75})
             || (kind in {0x68, 0x6C} && !question) || (kind in {0x73, 0x75} && ps != [])
    ensures w == v
  {
  }

  // ----- Runs

  lemma UpByNumber(v: View, w: View, digits: seq<nat>)
    requires forall j | 0 <= j < |digits| :: IsDigit(digits[j])
    requires v.Valid() && Carried(v, w, 0x41, false, [Number(0, digits)])
    ensures OnlyMoved(v, w) && w.x == v.x
    ensures 0 < Decimal(digits) <= v.y && v.y <= 0x1_0000 ==> w.y == v.y - Decimal(digits)
    ensures Decimal(digits) > v.y && v.y <= 0x1_0000 ==> w.y == 0
  {
    hide Carried, Decimal, View.Valid;
    NumberIsDecimal(digits);
    var n := if Number(0, digits) == 0 then 1 else Number(0, digits);
    assert Says([Number(0, digits)], 0, n, 1);
    assert Did(v, w, 0x41, n, 1);
    UpAndDown(v, w, 0x41, n);
  }

  lemma OneNumber(digits: seq<nat>)
    requires forall j | 0 <= j < |digits| :: IsDigit(digits[j])
    ensures forall i | 0 <= i < 1 :: forall j | 0 <= j < |[digits][i]| :: IsDigit([digits][i][j])
    ensures Joined([digits]) == digits && Numbers([digits]) == [Number(0, digits)]
  {
  }

  /** The characters of ESC [ n A on their way through the terminal: the cursor goes up by the number that the digits
      spell. */
  lemma UpRuns(steps: seq<Moment>, digits: seq<nat>)
    requires digits != [] && |digits| + 4 <= ESC_LIMIT && forall j | 0 <= j < |digits| :: IsDigit(digits[j])
    requires Traced(steps, [0x1B, 0x5B] + digits + [0x41])
    ensures steps != [] && steps[0].view.Settled().Valid()
    ensures var v, w, n := steps[0].view.Settled(), steps[|steps| - 1].view, Decimal(digits);
            && OnlyMoved(v, w) && w.x == v.x
            && (0 < n <= v.y && v.y <= 0x1_0000 ==> w.y == v.y - n)
            && (n > v.y && v.y <= 0x1_0000 ==> w.y == 0)
  {
    hide Traced, Carried, Decimal, View.Valid, OnlyMoved;
    TracedLength(steps, [0x1B, 0x5B] + digits + [0x41]);
    OneNumber(digits);
    NumbersRun(steps, [digits], 0x41);
    UpByNumber(steps[0].view.Settled(), steps[|steps| - 1].view, digits);
  }
}
