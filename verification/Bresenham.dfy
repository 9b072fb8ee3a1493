/** The line walk of common/ttf.c. */
module LineWalk {
  import opened Arithmetic

  datatype Point = Point(x: int, y: int)

  function Abs(v: int): nat
  {
    if v < 0 then -v else v
  }

  function Max(a: int, b: int): int
  {
    if a < b then b else a
  }

  /** Where the buffer holds a point: the coordinates are taken as unsigned 32-bit numbers, in eighths. */
  function Offset(p: Point, square: nat): (o: nat)
    ensures o < 0x4_0000
  {
    (p.x % 0x1_0000_0000 / 8 + p.y % 0x1_0000_0000 / 8 * square) % 0x1_0000_0000 % 0x4_0000
  }

  /** A step to one of the eight neighbours that comes nearer to the end. */
  ghost predicate IsStep(p: Point, next: Point, to: Point)
  {
    && next != p && Abs(next.x - p.x) <= 1 && Abs(next.y - p.y) <= 1
    && Abs(to.x - next.x) + Abs(to.y - next.y) < Abs(to.x - p.x) + Abs(to.y - p.y)
  }

  ghost predicate IsWalk(path: seq<Point>, to: Point)
  {
    forall i | 0 < i < |path| :: IsStep(path[i - 1], path[i], to)
  }

  ghost predicate Between(v: int, a: int, b: int)
  {
    a <= v <= b || b <= v <= a
  }

  /** The point is at most half a pixel off the line, measured along the longer side. */
  ghost predicate NearLine(p: Point, from: Point, to: Point)
  {
    var dx, dy := Abs(to.x - from.x), Abs(to.y - from.y);
    2 * Abs(Abs(p.x - from.x) * dy - Abs(p.y - from.y) * dx) <= Max(dx, dy)
  }

  ghost predicate OnLine(path: seq<Point>, from: Point, to: Point)
  {
    forall i | 0 <= i < |path| ::
      Between(path[i].x, from.x, to.x) && Between(path[i].y, from.y, to.y) && NearLine(path[i], from, to)
  }

  // The error term after p steps along x and q steps along y, and what a step along x or y or both does to it.
  ghost function Off(p: nat, q: nat, dx: nat, dy: nat): int
  {
    p * dy - q * dx
  }

  lemma OffStep(p: nat, q: nat, dx: nat, dy: nat)
    ensures Off(p + 1, q, dx, dy) == Off(p, q, dx, dy) + dy
    ensures Off(p, q + 1, dx, dy) == Off(p, q, dx, dy) - dx
    ensures Off(p + 1, q + 1, dx, dy) == Off(p, q, dx, dy) + dy - dx
  {
  }

  /** When a step along x is due at the last column, the row is the last one too. */
  lemma LastColumn(q: nat, dx: nat, dy: nat)
    requires q <= dy && 2 * Off(dx, q, dx, dy) <= 2 * dx - dy
    ensures q == dy
  {
    assert Off(dx, q, dx, dy) == (dy - q) * dx by {
      assert dx * dy - q * dx == (dy - q) * dx;
    }
    Multiple(dy - q, dx);
  }

  lemma LastRow(p: nat, dx: nat, dy: nat)
    requires p <= dx && 2 * Off(p, dy, dx, dy) >= dx - 2 * dy
    ensures p == dx
  {
    assert Off(p, dy, dx, dy) == (p - dx) * dy by {
      assert p * dy - dy * dx == (p - dx) * dy;
    }
    Multiple(p - dx, dy);
  }

  lemma OffStart(dx: nat, dy: nat)
    ensures Off(0, 0, dx, dy) == 0 && 2 * Abs(Off(0, 0, dx, dy)) <= Max(dx, dy)
  {
  }

  /** The point after p steps along x and q steps along y towards the end. */
  ghost function After(from: Point, to: Point, p: nat, q: nat): Point
  {
    Point(if from.x < to.x then from.x + p else from.x - p, if from.y < to.y then from.y + q else from.y - q)
  }

  lemma NearBy(from: Point, to: Point, p: nat, q: nat)
    requires var dx, dy := Abs(to.x - from.x), Abs(to.y - from.y);
             2 * Abs(Off(p, q, dx, dy)) <= Max(dx, dy) && p <= dx && q <= dy
    ensures var here := After(from, to, p, q);
            NearLine(here, from, to) && Between(here.x, from.x, to.x) && Between(here.y, from.y, to.y)
  {
  }

  lemma AtEnd(from: Point, to: Point, p: nat, q: nat)
    requires p <= Abs(to.x - from.x) && q <= Abs(to.y - from.y)
    ensures After(from, to, p, q).x == to.x <==> p == Abs(to.x - from.x)
    ensures After(from, to, p, q).y == to.y <==> q == Abs(to.y - from.y)
  {
  }

  /** At least one of the two steps is due, and the error stays small. */
  lemma ErrorStays(e: int, dx: nat, dy: nat)
    requires 2 * Abs(e) <= Max(dx, dy)
    ensures var t2 := 2 * (dx - dy - e);
            && (t2 >= 0 - dy || t2 <= dx)
            && 2 * Abs(e + (if t2 >= 0 - dy then dy else 0) - (if t2 <= dx then dx else 0)) <= Max(dx, dy)
  {
  }

  lemma StepCloser(from: Point, to: Point, p: nat, q: nat, p2: nat, q2: nat)
    requires p <= p2 <= p + 1 && q <= q2 <= q + 1 && p + q < p2 + q2
    requires p2 <= Abs(to.x - from.x) && q2 <= Abs(to.y - from.y)
    ensures IsStep(After(from, to, p, q), After(from, to, p2, q2), to)
  {
  }

  lemma WalkStart(from: Point, to: Point)
    ensures IsWalk([] + [from], to) && OnLine([], from, to)
  {
  }

  lemma WalkMore(path: seq<Point>, here: Point, next: Point, to: Point)
    requires path != [] && path[|path| - 1] == here && IsWalk(path, to)
    requires IsStep(here, next, to)
    ensures IsWalk(path + [next], to) && (path + [next])[0] == path[0]
  {
    hide IsStep;
    var more := path + [next];
    forall i | 0 < i < |more|
      ensures IsStep(more[i - 1], more[i], to)
    {
      assert more[i - 1] == path[i - 1];
      if i < |path| {
        assert more[i] == path[i];
      }
    }
  }

  lemma OnLineMore(path: seq<Point>, here: Point, from: Point, to: Point)
    requires OnLine(path, from, to) && NearLine(here, from, to)
    requires Between(here.x, from.x, to.x) && Between(here.y, from.y, to.y)
    ensures OnLine(path + [here], from, to)
  {
    hide NearLine;
  }

  class Canvas {
    const square: nat
    const buffer: array<bv8>

    constructor (s: nat)
      ensures square == s && buffer.Length == 0x4_0000 && fresh(buffer)
    {
      square := s;
      buffer := new bv8[0x4_0000](_ => 0);
    }

    ghost predicate Touched(path: seq<Point>, o: nat)
    {
      exists i :: 0 <= i < |path| && Offset(path[i], square) == o
    }

    /** The buffer after the color has been put on some points. */
    ghost predicate Drawn(was: seq<bv8>, path: seq<Point>, color: bv8)
      requires buffer.Length == 0x4_0000 == |was|
      reads buffer
    {
      forall o | 0 <= o < 0x4_0000 :: buffer[o] == if Touched(path, o) then was[o] | color else was[o]
    }

    lemma TouchedMore(path: seq<Point>, p: Point, k: nat)
      ensures Touched(path + [p], k) <==> Touched(path, k) || k == Offset(p, square)
    {
      hide Offset;
      var more := path + [p];
      if Touched(path, k) {
        var i :| 0 <= i < |path| && Offset(path[i], square) == k;
        assert more[i] == path[i];
      }
      assert more[|path|] == p;
    }

    static lemma OrTwice(v: bv8, color: bv8)
      ensures (v | color) | color == v | color
    {
    }

    // One point of the line.
    method Plot(p: Point, color: bv8, ghost was: seq<bv8>, ghost path: seq<Point>)
      requires buffer.Length == 0x4_0000 == |was| && Drawn(was, path, color)
      modifies buffer
      ensures Drawn(was, path + [p], color)
    {
      hide Offset;
      var o := Offset(p, square);
      buffer[o] := buffer[o] | color;
      ghost var more := path + [p];
      forall k | 0 <= k < 0x4_0000
        ensures Touched(more, k) <==> Touched(path, k) || k == o
      {
        TouchedMore(path, p, k);
      }
      OrTwice(was[o], color);
    }

    lemma NothingDrawn(was: seq<bv8>, color: bv8)
      requires buffer.Length == 0x4_0000 && was == buffer[..]
      ensures Drawn(was, [], color)
    {
    }

    /** bresenham: from any point to any other, a walk that ends exactly there, inside of the box of the two, and
        nowhere more than half a pixel off the line; exactly its points are drawn. */
    method Line(from: Point, to: Point, direction: int) returns (ghost path: seq<Point>)
      requires buffer.Length == 0x4_0000
      modifies buffer
      ensures path != [] && path[0] == from && path[|path| - 1] == to
      ensures IsWalk(path, to) && OnLine(path, from, to)
      ensures Drawn(old(buffer[..]), path, if direction == 0 then 4 else if direction < 0 then 5 else 6)
    {
      hide Offset, Canvas.Drawn, NearLine, Off, IsWalk, OnLine, IsStep, Abs, Max, Between;
      var color: bv8 := if direction == 0 then 4 else if direction < 0 then 5 else 6;
      ghost var was := buffer[..];
      var x0, y0 := from.x, from.y;
      var dx: int, dy: int := Abs(to.x - from.x), 0 - Abs(to.y - from.y);
      var sx, sy := if from.x < to.x then 1 else -1, if from.y < to.y then 1 else -1;
      var t1 := dx + dy;
      ghost var p: nat, q: nat := 0, 0;
      path := [];
      NothingDrawn(was, color);
      OffStart(dx, -dy);
      WalkStart(from, to);
      while true
        invariant buffer.Length == 0x4_0000 && Drawn(was, path, color)
        invariant p <= dx && q <= -dy && Point(x0, y0) == After(from, to, p, q)
        invariant t1 == dx + dy - Off(p, q, dx, -dy)
        invariant 2 * Abs(Off(p, q, dx, -dy)) <= Max(dx, -dy)
        invariant (path + [Point(x0, y0)])[0] == from && IsWalk(path + [Point(x0, y0)], to)
        invariant OnLine(path, from, to)
        decreases dx - p - dy - q
      {
        ghost var here, p0, q0 := Point(x0, y0), p, q;
        NearBy(from, to, p, q);
        AtEnd(from, to, p, q);
        OnLineMore(path, here, from, to);
        Plot(Point(x0, y0), color, was, path);
        path := path + [here];
        OffStep(p, q, dx, -dy);
        ErrorStays(Off(p, q, dx, -dy), dx, -dy);
        var t2 := t1 * 2;
        if t2 >= dy {
          if x0 == to.x {
            LastColumn(q, dx, -dy);
            break;
          }
          x0 := x0 + sx;
          t1 := t1 + dy;
          p := p + 1;
        }
        if t2 <= dx {
          if y0 == to.y {
            LastRow(p0, dx, -dy);
            break;
          }
          y0 := y0 + sy;
          t1 := t1 + dx;
          q := q + 1;
        }
        StepCloser(from, to, p0, q0, p, q);
        WalkMore(path, here, Point(x0, y0), to);
      }
    }
  }

  lemma InSquare(column: nat, row: nat, square: nat)
    requires column < square <= 512 && row < square
    ensures row * square + column < 0x4_0000
    ensures (row + 1) * square == row * square + square
  {
    Multiple(511 - row, square);
    assert (511 - row) * square == 511 * square - row * square;
  }

  lemma PlainOffset(p: Point, square: nat)
    requires 0 <= p.x < 8 * square && 0 <= p.y < 8 * square && square <= 512
    ensures Offset(p, square) == p.y / 8 * square + p.x / 8
  {
    InSquare(p.x / 8, p.y / 8, square);
  }

  /** Eight pixels by eight share a byte, and the bytes go through the square row by row. */
  lemma OffsetIs(p: Point, square: nat)
    requires 0 <= p.x < 8 * square && 0 <= p.y < 8 * square && square <= 512
    ensures Offset(p, square) == p.y / 8 * square + p.x / 8
    ensures p.x + 8 < 8 * square ==> Offset(Point(p.x + 8, p.y), square) == Offset(p, square) + 1
    ensures p.y + 8 < 8 * square ==> Offset(Point(p.x, p.y + 8), square) == Offset(p, square) + square
  {
    hide Offset;
    PlainOffset(p, square);
    if p.x + 8 < 8 * square {
      PlainOffset(Point(p.x + 8, p.y), square);
    }
    if p.y + 8 < 8 * square {
      PlainOffset(Point(p.x, p.y + 8), square);
      InSquare(p.x / 8, p.y / 8, square);
    }
  }
}
