/** The cells of the text console (kernel/base/console.c) and the operations that move or erase them. */
module ConsoleCells {
  /** A cell without the mark that it is on the screen already. */
  function Shown(c: bv32): bv32
  {
    c & 0x7FFF_FFFF
  }

  function AllShown(b: seq<bv32>): (s: seq<bv32>)
    ensures |s| == |b| && forall i | 0 <= i < |b| :: s[i] == Shown(b[i])
  {
    seq(|b|, i requires 0 <= i < |b| => Shown(b[i]))
  }

  lemma ShownTwice(c: bv32)
    ensures Shown(Shown(c)) == Shown(c)
  {
  }

  /** The cells from `from` to `to` move up by a line; the last line of them is blank. */
  function ScrolledUp(b: seq<bv32>, from: nat, to: nat, width: nat, blank: bv32): (s: seq<bv32>)
    requires from + width <= to <= |b|
    ensures |s| == |b|
  {
    seq(|b|, i requires 0 <= i < |b| =>
      if from <= i < to - width then b[i + width] else if to - width <= i < to then blank else b[i])
  }

  function ScrolledDown(b: seq<bv32>, from: nat, to: nat, width: nat, blank: bv32): (s: seq<bv32>)
    requires from + width <= to <= |b|
    ensures |s| == |b|
  {
    seq(|b|, i requires 0 <= i < |b| =>
      if from + width <= i < to then b[i - width] else if from <= i < from + width then blank else b[i])
  }

  /** The cells from `from` to `to` are blank. */
  function Erased(b: seq<bv32>, from: nat, to: nat, blank: bv32): (s: seq<bv32>)
    requires from <= to <= |b|
    ensures |s| == |b|
  {
    seq(|b|, i requires 0 <= i < |b| => if from <= i < to then blank else b[i])
  }

  /** n blank cells come in at `from`, and as many leave before `to`. */
  function Inserted(b: seq<bv32>, from: nat, to: nat, n: nat, blank: bv32): (s: seq<bv32>)
    requires from <= to <= |b|
    ensures |s| == |b|
  {
    seq(|b|, i requires 0 <= i < |b| => if from + n <= i < to then b[i - n] else if from <= i < to then blank else b[i])
  }

  /** n cells leave at `from`, and as many blank ones come in before `to`. */
  function Deleted(b: seq<bv32>, from: nat, to: nat, n: nat, blank: bv32): (s: seq<bv32>)
    requires from <= to <= |b|
    ensures |s| == |b|
  {
    seq(|b|, i requires 0 <= i < |b| => if from <= i < to && i + n < to then b[i + n] else if from <= i < to then blank else b[i])
  }

  /** Up and down again loses one line. */
  lemma DownUndoesUp(b: seq<bv32>, from: nat, to: nat, width: nat, blank: bv32)
    requires from + width <= to <= |b|
    ensures ScrolledDown(ScrolledUp(b, from, to, width, blank), from, to, width, blank)
            == Erased(b, from, from + width, blank)
  {
    var u := ScrolledUp(b, from, to, width, blank);
    var d := ScrolledDown(u, from, to, width, blank);
    forall i | 0 <= i < |b|
      ensures d[i] == Erased(b, from, from + width, blank)[i]
    {
      if from + width <= i < to {
        var k := i - width;
        assert u[k] == b[k + width];
      }
    }
  }

  /** Insertions add up. */
  lemma InsertedTwice(b: seq<bv32>, from: nat, to: nat, n: nat, m: nat, blank: bv32)
    requires from <= to <= |b|
    ensures Inserted(Inserted(b, from, to, n, blank), from, to, m, blank) == Inserted(b, from, to, n + m, blank)
  {
    var s := Inserted(b, from, to, n, blank);
    var t := Inserted(s, from, to, m, blank);
    forall i | 0 <= i < |b|
      ensures t[i] == Inserted(b, from, to, n + m, blank)[i]
    {
      if from + m <= i < to {
        var k := i - m;
        assert t[i] == s[k];
      }
    }
  }

  lemma DeletedTwice(b: seq<bv32>, from: nat, to: nat, n: nat, m: nat, blank: bv32)
    requires from <= to <= |b|
    ensures Deleted(Deleted(b, from, to, n, blank), from, to, m, blank) == Deleted(b, from, to, n + m, blank)
  {
    var s := Deleted(b, from, to, n, blank);
    var t := Deleted(s, from, to, m, blank);
    forall i | 0 <= i < |b|
      ensures t[i] == Deleted(b, from, to, n + m, blank)[i]
    {
      if from <= i < to && i + m < to {
        var k := i + m;
        assert t[i] == s[k];
      }
    }
  }

  /** What was inserted can be deleted; only what had to leave the line is lost. */
  lemma DeleteUndoesInsert(b: seq<bv32>, from: nat, to: nat, n: nat, blank: bv32)
    requires from + n <= to <= |b|
    ensures Deleted(Inserted(b, from, to, n, blank), from, to, n, blank) == Erased(b, to - n, to, blank)
  {
    var s := Inserted(b, from, to, n, blank);
    var t := Deleted(s, from, to, n, blank);
    forall i | 0 <= i < |b|
      ensures t[i] == Erased(b, to - n, to, blank)[i]
    {
      if from <= i < to && i + n < to {
        var k := i + n;
        assert t[i] == s[k];
      }
    }
  }

  // A cell gets a new value unless it shows that already.
  method SetCell(b: array<bv32>, i: nat, v: bv32)
    requires i < b.Length && Shown(v) == v
    modifies b
    ensures Shown(b[i]) == v
    ensures forall k | 0 <= k < b.Length && k != i :: b[k] == old(b[k])
  {
    if b[i] & 0x7FFF_FFFF != v {
      b[i] := v;
    }
  }

  // A cell takes what another one shows.
  method CopyCell(b: array<bv32>, dst: nat, src: nat)
    requires dst < b.Length && src < b.Length
    modifies b
    ensures Shown(b[dst]) == Shown(old(b[src]))
    ensures forall k | 0 <= k < b.Length && k != dst :: b[k] == old(b[k])
  {
    ShownTwice(b[src]);
    var t0, t1 := b[dst] & 0x7FFF_FFFF, b[src] & 0x7FFF_FFFF;
    if t0 != t1 {
      b[dst] := t1;
    }
  }

  // What a cell shows, wherever it is.
  ghost function At(b: seq<bv32>, j: int): bv32
  {
    if 0 <= j < |b| then Shown(b[j]) else 0
  }

  lemma AtIs(b: seq<bv32>, j: int)
    requires 0 <= j < |b|
    ensures At(b, j) == Shown(b[j])
  {
    hide Shown;
  }

  lemma ScrolledUpIs(was: seq<bv32>, now: seq<bv32>, from: nat, to: nat, width: nat, blank: bv32)
    requires |now| == |was| && forall k | 0 <= k < |was| && !(from <= k < to) :: now[k] == was[k]
    requires from + width <= to <= |was|
    requires forall k | from <= k < to - width :: Shown(now[k]) == At(was, k + width)
    requires forall k | to - width <= k < to :: Shown(now[k]) == blank
    ensures AllShown(now) == ScrolledUp(AllShown(was), from, to, width, blank)
  {
    hide Shown;
    var r := ScrolledUp(AllShown(was), from, to, width, blank);
    forall k | 0 <= k < |was|
      ensures Shown(now[k]) == r[k]
    {
      if from <= k < to - width {
        AtIs(was, k + width);
      }
    }
  }

  lemma ScrolledDownIs(was: seq<bv32>, now: seq<bv32>, from: nat, to: nat, width: nat, blank: bv32)
    requires |now| == |was| && forall k | 0 <= k < |was| && !(from <= k < to) :: now[k] == was[k]
    requires from + width <= to <= |was|
    requires forall k | from + width <= k < to :: Shown(now[k]) == At(was, k - width)
    requires forall k | from <= k < from + width :: Shown(now[k]) == blank
    ensures AllShown(now) == ScrolledDown(AllShown(was), from, to, width, blank)
  {
    hide Shown;
    var r := ScrolledDown(AllShown(was), from, to, width, blank);
    forall k | 0 <= k < |was|
      ensures Shown(now[k]) == r[k]
    {
      if from + width <= k < to {
        AtIs(was, k - width);
      }
    }
  }

  lemma InsertedIs(was: seq<bv32>, now: seq<bv32>, from: nat, to: nat, blank: bv32)
    requires |now| == |was| && forall k | 0 <= k < |was| && !(from <= k < to) :: now[k] == was[k]
    requires from < to <= |was| && Shown(now[from]) == blank
    requires forall k | from < k < to :: Shown(now[k]) == At(was, k - 1)
    ensures AllShown(now) == Inserted(AllShown(was), from, to, 1, blank)
  {
    hide Shown;
    var r := Inserted(AllShown(was), from, to, 1, blank);
    forall k | 0 <= k < |was|
      ensures Shown(now[k]) == r[k]
    {
      if from < k < to {
        AtIs(was, k - 1);
      }
    }
  }

  lemma DeletedIs(was: seq<bv32>, now: seq<bv32>, from: nat, to: nat, blank: bv32)
    requires |now| == |was| && forall k | 0 <= k < |was| && !(from <= k < to) :: now[k] == was[k]
    requires from < to <= |was| && Shown(now[to - 1]) == blank
    requires forall k | from <= k < to - 1 :: Shown(now[k]) == At(was, k + 1)
    ensures AllShown(now) == Deleted(AllShown(was), from, to, 1, blank)
  {
    hide Shown;
    var r := Deleted(AllShown(was), from, to, 1, blank);
    forall k | 0 <= k < |was|
      ensures Shown(now[k]) == r[k]
    {
      if from <= k < to - 1 {
        AtIs(was, k + 1);
      }
    }
  }

  /** The erase loops of the console. */
  method EraseCells(b: array<bv32>, from: nat, to: nat, blank: bv32)
    requires from <= to <= b.Length && Shown(blank) == blank
    modifies b
    ensures forall k | from <= k < to :: Shown(b[k]) == blank
    ensures forall k | 0 <= k < b.Length && !(from <= k < to) :: b[k] == old(b[k])
  {
    hide Shown;
    for i := from to to
      invariant forall k | from <= k < i :: Shown(b[k]) == blank
      invariant forall k | 0 <= k < b.Length && !(from <= k < i) :: b[k] == old(b[k])
    {
      SetCell(b, i, blank);
    }
  }

  /** con_scroll_up on the cells from `from` to `to`. */
  method ScrollUp(b: array<bv32>, from: nat, to: nat, width: nat, blank: bv32)
    requires from + width <= to <= b.Length && Shown(blank) == blank
    modifies b
    ensures AllShown(b[..]) == ScrolledUp(AllShown(old(b[..])), from, to, width, blank)
    ensures forall k | 0 <= k < b.Length && !(from <= k < to) :: b[k] == old(b[k])
  {
    hide Shown, At;
    ghost var was := b[..];
    for i := from to to - width
      invariant forall k | 0 <= k < b.Length && !(from <= k < i) :: b[k] == was[k]
      invariant forall k | from <= k < i :: Shown(b[k]) == At(was, k + width)
    {
      AtIs(was, i + width);
      CopyCell(b, i, i + width);
    }
    EraseCells(b, to - width, to, blank);
    ScrolledUpIs(was, b[..], from, to, width, blank);
  }

  /** con_scroll_down on the cells from `from` to `to`. */
  method ScrollDown(b: array<bv32>, from: nat, to: nat, width: nat, blank: bv32)
    requires from + width <= to <= b.Length && Shown(blank) == blank
    modifies b
    ensures AllShown(b[..]) == ScrolledDown(AllShown(old(b[..])), from, to, width, blank)
    ensures forall k | 0 <= k < b.Length && !(from <= k < to) :: b[k] == old(b[k])
  {
    hide Shown, At;
    ghost var was := b[..];
    var i := to;
    while i > from + width
      invariant from + width <= i <= to
      invariant forall k | 0 <= k < b.Length && !(i <= k < to) :: b[k] == was[k]
      invariant forall k | i <= k < to :: Shown(b[k]) == At(was, k - width)
    {
      i := i - 1;
      AtIs(was, i - width);
      CopyCell(b, i, i - width);
    }
    EraseCells(b, from, from + width, blank);
    ScrolledDownIs(was, b[..], from, to, width, blank);
  }

  lemma InsertedNone(b: seq<bv32>, from: nat, to: nat, blank: bv32)
    requires from <= to <= |b|
    ensures Inserted(b, from, to, 0, blank) == b && Deleted(b, from, to, 0, blank) == b
  {
  }

  method InsertCell(b: array<bv32>, from: nat, to: nat, blank: bv32)
    requires from < to <= b.Length && Shown(blank) == blank
    modifies b
    ensures AllShown(b[..]) == Inserted(AllShown(old(b[..])), from, to, 1, blank)
    ensures forall k | 0 <= k < b.Length && !(from <= k < to) :: b[k] == old(b[k])
  {
    hide Shown, At;
    ghost var was := b[..];
    var t := to - 1;
    while from < t
      invariant from <= t < to
      invariant forall k | 0 <= k < b.Length && !(t < k < to) :: b[k] == was[k]
      invariant forall k | t < k < to :: Shown(b[k]) == At(was, k - 1)
    {
      AtIs(was, t - 1);
      CopyCell(b, t, t - 1);
      t := t - 1;
    }
    SetCell(b, from, blank);
    InsertedIs(was, b[..], from, to, blank);
  }

  /** CSI @ on the cells from `from` to `to`: one cell at a time, n times. */
  method InsertCells(b: array<bv32>, from: nat, to: nat, n: nat, blank: bv32)
    requires from < to <= b.Length && Shown(blank) == blank
    modifies b
    ensures AllShown(b[..]) == Inserted(AllShown(old(b[..])), from, to, n, blank)
    ensures forall k | 0 <= k < b.Length && !(from <= k < to) :: b[k] == old(b[k])
  {
    hide Shown, Inserted;
    ghost var was := AllShown(b[..]);
    InsertedNone(was, from, to, blank);
    for i := 0 to n
      invariant AllShown(b[..]) == Inserted(was, from, to, i, blank)
      invariant forall k | 0 <= k < b.Length && !(from <= k < to) :: b[k] == old(b[k])
    {
      InsertedTwice(was, from, to, i, 1, blank);
      InsertCell(b, from, to, blank);
    }
  }

  method DeleteCell(b: array<bv32>, from: nat, to: nat, blank: bv32)
    requires from < to <= b.Length && Shown(blank) == blank
    modifies b
    ensures AllShown(b[..]) == Deleted(AllShown(old(b[..])), from, to, 1, blank)
    ensures forall k | 0 <= k < b.Length && !(from <= k < to) :: b[k] == old(b[k])
  {
    hide Shown, At;
    ghost var was := b[..];
    var t := from;
    while t < to - 1
      invariant from <= t < to
      invariant forall k | 0 <= k < b.Length && !(from <= k < t) :: b[k] == was[k]
      invariant forall k | from <= k < t :: Shown(b[k]) == At(was, k + 1)
    {
      AtIs(was, t + 1);
      CopyCell(b, t, t + 1);
      t := t + 1;
    }
    SetCell(b, to - 1, blank);
    DeletedIs(was, b[..], from, to, blank);
  }

  /** CSI P on the cells from `from` to `to`. */
  method DeleteCells(b: array<bv32>, from: nat, to: nat, n: nat, blank: bv32)
    requires from < to <= b.Length && Shown(blank) == blank
    modifies b
    ensures AllShown(b[..]) == Deleted(AllShown(old(b[..])), from, to, n, blank)
    ensures forall k | 0 <= k < b.Length && !(from <= k < to) :: b[k] == old(b[k])
  {
    hide Shown, Deleted;
    ghost var was := AllShown(b[..]);
    InsertedNone(was, from, to, blank);
    for i := 0 to n
      invariant AllShown(b[..]) == Deleted(was, from, to, i, blank)
      invariant forall k | 0 <= k < b.Length && !(from <= k < to) :: b[k] == old(b[k])
    {
      DeletedTwice(was, from, to, i, 1, blank);
      DeleteCell(b, from, to, blank);
    }
  }
}
