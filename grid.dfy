/**
 * The slot arithmetic of `PuzzleView` (Sources/PuzzleKit/PuzzleView.swift):
 * `setupPuzzleTiles` numbers the cells row by row, and `layoutPuzzleTiles`
 * recovers a slot's row and column with Swift's `Int` division and remainder,
 * then places the tile on that cell of the view's bounds.
 */
module Grid {
  import opened Geometry

  function Abs(a: int): nat { if a < 0 then -a else a }

  /**
   * Swift's `a / b` on `Int`: the quotient truncated toward zero. Its magnitude is the
   * number of whole |b|s that fit in |a| (rounded down, whatever the signs), and a
   * non-zero quotient is negative exactly when the operands have opposite signs.
   */
  function Quot(a: int, b: int): (q: int)
    requires b != 0
    ensures Abs(q) == Abs(a) / Abs(b)
    ensures q != 0 ==> (q < 0 <==> (a < 0) != (b < 0))
  {
    var m := Abs(a) / Abs(b);
    QuotientNonNegative(Abs(a), Abs(b));
    if (a < 0) == (b < 0) then m else -m
  }

  lemma QuotientNonNegative(n: nat, d: nat)
    requires 0 < d
    ensures 0 <= n / d
  {
  }

  /** Swift's `a % b` on `Int`: the remainder takes the sign of the dividend. */
  function Rem(a: int, b: int): (r: int)
    requires b != 0
    ensures a == Quot(a, b) * b + r
    ensures Abs(r) < Abs(b)
    ensures r != 0 ==> (r < 0 <==> a < 0)
  {
    var m: int := Abs(a) / Abs(b);
    var s: int := Abs(a) % Abs(b);
    assert Abs(a) == m * Abs(b) + s;
    QuotTimesDivisor(a, b);
    if a < 0 then -s else s
  }

  /** The quotient times the divisor is the whole part of the dividend, with its sign. */
  lemma QuotTimesDivisor(a: int, b: int)
    requires b != 0
    ensures Quot(a, b) * b == if a < 0 then -((Abs(a) / Abs(b)) * Abs(b)) else (Abs(a) / Abs(b)) * Abs(b)
  {
    var m := Abs(a) / Abs(b);
    if b < 0 {
      assert m * b == -(m * Abs(b));
      assert -m * b == m * Abs(b);
    } else {
      assert -m * b == -(m * Abs(b));
    }
  }

  /** On a non-negative slot and a positive grid size, Swift's operators agree with Euclidean ones. */
  lemma SwiftOpsOnNatural(a: int, b: int)
    requires 0 <= a && 0 < b
    ensures Quot(a, b) == a / b && Rem(a, b) == a % b
  {
    DivModUnique(a, b, Quot(a, b), Rem(a, b));
  }

  /** A non-zero multiple of b is at least b away from zero. */
  lemma MultipleAwayFromZero(d: int, b: int)
    requires 0 < b
    ensures d != 0 ==> Abs(d * b) >= b
  {
    if d > 0 {
      assert d * b == (d - 1) * b + b && (d - 1) * b >= 0;
    } else if d < 0 {
      assert d * b == (d + 1) * b - b && (d + 1) * b <= 0;
    }
  }

  /** Quotient and remainder are the only pair with `a == q * b + r` and `0 <= r < b`. */
  lemma DivModUnique(a: int, b: int, q: int, r: int)
    requires 0 < b && 0 <= r < b && a == q * b + r
    ensures a / b == q && a % b == r
  {
    var q', r' := a / b, a % b;
    assert (q - q') * b == r' - r;
    MultipleAwayFromZero(q - q', b);
  }

  /** Row and column of a slot, as `layoutPuzzleTiles` computes them: `(idx / gridSize, idx % gridSize)`. */
  function Cell(idx: int, g: int): (rc: (int, int))
    requires g != 0
    ensures rc.0 * g + rc.1 == idx
    ensures 0 <= idx ==> 0 <= rc.1 < Abs(g)
  {
    (Quot(idx, g), Rem(idx, g))
  }

  /** The value of `setupPuzzleTiles`' `correctIndex` counter when it reaches cell (row, col). */
  function IndexOf(row: int, col: int, g: int): int
  {
    row * g + col
  }

  /** Layout puts the tile numbered at (row, col) back on (row, col). */
  lemma CellOfIndex(row: int, col: int, g: int)
    requires 0 < g && 0 <= row && 0 <= col < g
    ensures Cell(IndexOf(row, col, g), g) == (row, col)
  {
    var idx := IndexOf(row, col, g);
    SwiftOpsOnNatural(idx, g);
    assert idx == row * g + col && 0 <= col < g;
    DivModUnique(idx, g, row, col);
  }

  /** The sign of a product with a positive factor. */
  lemma {:induction false} MulSign(d: int, b: int)
    requires 0 < b
    ensures d < 0 ==> d * b <= -b
    ensures 0 <= d ==> 0 <= d * b
    decreases if d < 0 then -d else d
  {
    if d < -1 {
      MulSign(d + 1, b);
      assert d * b == (d + 1) * b - b;
    } else if d > 0 {
      MulSign(d - 1, b);
      assert d * b == (d - 1) * b + b;
    }
  }

  /** Multiplying by a positive factor keeps the order. */
  lemma MulMono(a: int, b: int, g: int)
    requires 0 < g && a <= b
    ensures a * g <= b * g
  {
    MulSign(b - a, g);
    assert b * g - a * g == (b - a) * g;
  }

  /**
   * A non-negative slot lies on a row at or below the first, and the slots 0 .. g*g-1
   * are exactly those on the g rows of a g×g grid.
   */
  lemma CellInGrid(idx: int, g: int)
    requires 0 < g && 0 <= idx
    ensures 0 <= Cell(idx, g).0
    ensures idx < g * g <==> Cell(idx, g).0 < g
  {
    var cell := Cell(idx, g);
    var row, col := cell.0, cell.1;
    assert row * g + col == idx && 0 <= col < g;
    MulSign(row, g);
    if row < g {
      MulMono(row, g - 1, g);
      assert (g - 1) * g == g * g - g;
    } else {
      MulMono(g, row, g);
    }
  }

  /**
   * The frame `layoutPuzzleTiles` gives the tile at slot idx: a `bounds.width / gridSize` by
   * `bounds.height / gridSize` rectangle at column col and row row of the view. On a
   * positive grid size, g such cells side by side span the view exactly.
   */
  function CellFrame(idx: int, g: int, bounds: Rect): (r: Rect)
    requires g != 0
    ensures 0 < g ==> r.width * g as real == Width(bounds) && r.height * g as real == Height(bounds)
  {
    var w, h := Width(bounds) / g as real, Height(bounds) / g as real;
    var cell := Cell(idx, g);
    Rect(cell.1 as real * w, cell.0 as real * h, w, h)
  }

  /** The cell of every slot 0 .. g*g-1 lies inside the view. */
  lemma CellInView(idx: int, g: int, bounds: Rect)
    requires 0 < g && 0 <= idx < g * g
    ensures var r := CellFrame(idx, g, bounds);
      0.0 <= r.x && r.x + r.width <= Width(bounds) && 0.0 <= r.y && r.y + r.height <= Height(bounds)
  {
    var cell := Cell(idx, g);
    assert 0 <= cell.0 < g && 0 <= cell.1 < g by {
      CellInGrid(idx, g);
    }
    StripInside(cell.1, g, Width(bounds));
    StripInside(cell.0, g, Height(bounds));
  }

  /** Strip c of a length split into g equal strips, starting at c times the share, lies within the length. */
  lemma StripInside(c: int, g: int, len: real)
    requires 0 <= c < g && 0.0 <= len
    ensures var w := len / g as real; 0.0 <= c as real * w && c as real * w + w <= len
  {
    var w := len / g as real;
    assert 0.0 <= w;
    assert w * g as real == len;
    var d := (g - c - 1) as real;
    assert 0.0 <= d * w && 0.0 <= c as real * w;
    assert len == c as real * w + w + d * w;
  }

  /** Two cells in different columns (or rows) share at most an edge. */
  lemma StripsApart(c1: int, c2: int, w: real, x1: real, x2: real)
    requires c1 < c2 && 0.0 <= w && x1 == c1 as real * w && x2 == c2 as real * w
    ensures x1 + w <= x2
  {
    var d := (c2 - c1 - 1) as real;
    assert 0.0 <= d * w;
    assert x2 - x1 - w == d * w;
  }

  /** Intervals that meet at most at an end point overlap by nothing. */
  lemma OverlapApart(lo1: real, hi1: real, lo2: real, hi2: real)
    requires lo1 <= hi1 && lo2 <= hi2 && (hi1 <= lo2 || hi2 <= lo1)
    ensures Overlap(lo1, hi1, lo2, hi2) == 0.0
  {
  }

  /** Rectangles side by side (one ends where or before the other starts) overlap by nothing. */
  lemma ApartX(a: Rect, b: Rect)
    requires MaxX(a) <= MinX(b) || MaxX(b) <= MinX(a)
    ensures IntersectionArea(a, b) == 0.0
  {
    OverlapApart(MinX(a), MaxX(a), MinX(b), MaxX(b));
  }

  /** Rectangles one above the other overlap by nothing. */
  lemma ApartY(a: Rect, b: Rect)
    requires MaxY(a) <= MinY(b) || MaxY(b) <= MinY(a)
    ensures IntersectionArea(a, b) == 0.0
  {
    OverlapApart(MinY(a), MaxY(a), MinY(b), MaxY(b));
  }

  /** Two w×h cells of a lattice at different (column, row) positions do not overlap. */
  lemma LatticeCellsApart(ci: int, ri: int, cj: int, rj: int, w: real, h: real, a: Rect, b: Rect)
    requires 0.0 <= w && 0.0 <= h && (ci != cj || ri != rj)
    requires a == Rect(ci as real * w, ri as real * h, w, h) && b == Rect(cj as real * w, rj as real * h, w, h)
    ensures IntersectionArea(a, b) == 0.0
  {
    var xi, xj, yi, yj := ci as real * w, cj as real * w, ri as real * h, rj as real * h;
    if ci < cj {
      StripsApart(ci, cj, w, xi, xj);
      ApartX(a, b);
    } else if cj < ci {
      StripsApart(cj, ci, w, xj, xi);
      ApartX(a, b);
    } else if ri < rj {
      StripsApart(ri, rj, h, yi, yj);
      ApartY(a, b);
    } else {
      StripsApart(rj, ri, h, yj, yi);
      ApartY(a, b);
    }
  }

  /** Different slots have different cells. */
  lemma CellInjective(i: int, j: int, g: int)
    requires g != 0
    ensures Cell(i, g) == Cell(j, g) ==> i == j
  {
  }

  /** Tiles laid out on two different slots of a grid do not overlap. */
  lemma CellFramesDisjoint(i: int, j: int, g: int, bounds: Rect)
    requires 0 < g && 0 <= i && 0 <= j && i != j
    ensures IntersectionArea(CellFrame(i, g, bounds), CellFrame(j, g, bounds)) == 0.0
  {
    var w, h := Width(bounds) / g as real, Height(bounds) / g as real;
    assert 0.0 <= w && 0.0 <= h;
    var a, b := Cell(i, g), Cell(j, g);
    CellInjective(i, j, g);
    LatticeCellsApart(a.1, a.0, b.1, b.0, w, h, CellFrame(i, g, bounds), CellFrame(j, g, bounds));
  }
}
