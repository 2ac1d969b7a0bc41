/** Row-major pixel coordinates on a width x height grid.
    Pixel p sits in row p / w and column p % w; its bytes are 4p .. 4p+3. */
module Grid {

  function Row(p: nat, w: nat): nat
    requires w >= 1
  {
    p / w
  }

  function Col(p: nat, w: nat): nat
    requires w >= 1
  {
    p % w
  }

  /** A pixel with all four neighbours inside the grid (rows 1..h-2, columns 1..w-2). */
  predicate Interior(p: nat, w: nat, h: nat)
    requires w >= 1
  {
    1 <= Row(p, w) < h - 1 && 1 <= Col(p, w) < w - 1
  }

  /** The pixel at (x, y) has index y*w + x, and that index gives back x and y. */
  lemma RowCol(x: nat, y: nat, w: nat)
    requires x < w
    ensures Row(y * w + x, w) == y && Col(y * w + x, w) == x
  {
    var p := y * w + x;
    var r, c := p / w, p % w;
    assert p == r * w + c;
    if r < y {
      MulAtLeast(y - r, w);
    } else if r > y {
      MulAtLeast(r - y, w);
    }
  }

  lemma MulAtLeast(k: int, w: nat)
    requires k >= 1
    ensures k * w >= w
  {
  }

  /** The pixel at column x of row y lies inside a w x h grid. */
  lemma CellInGrid(x: nat, y: nat, w: nat, h: nat)
    requires x < w && y < h
    ensures y * w + x < w * h
  {
    assert (h - y) * w >= w by { MulAtLeast(h - y, w); }
  }

  /** Every pixel of the grid has a row below h. */
  lemma RowBelow(p: nat, w: nat, h: nat)
    requires w >= 1 && p < w * h
    ensures Row(p, w) < h
  {
    var r := p / w;
    assert p == r * w + p % w;
    if r >= h {
      assert r * w >= h * w;
    }
  }

  /** The four neighbours of an interior pixel are inside the grid. */
  lemma InteriorNeighbours(p: nat, w: nat, h: nat)
    requires w >= 1 && Interior(p, w, h)
    ensures p >= w + 1 && p + w + 1 < w * h
  {
    var r, c := p / w, p % w;
    assert p == r * w + c;
    assert r * w >= w;
    assert (r + 1) * w <= (h - 1) * w;
  }

  /** Neighbour left/right/up/down of an interior pixel have the expected coordinates. */
  lemma NeighbourCoords(p: nat, w: nat, h: nat)
    requires w >= 1 && Interior(p, w, h)
    ensures p >= w + 1
    ensures Row(p - 1, w) == Row(p, w) && Col(p - 1, w) == Col(p, w) - 1
    ensures Row(p + 1, w) == Row(p, w) && Col(p + 1, w) == Col(p, w) + 1
    ensures Row(p - w, w) == Row(p, w) - 1 && Col(p - w, w) == Col(p, w)
    ensures Row(p + w, w) == Row(p, w) + 1 && Col(p + w, w) == Col(p, w)
  {
    InteriorNeighbours(p, w, h);
    var r, c := p / w, p % w;
    assert p == r * w + c;
    RowCol(c - 1, r, w);
    RowCol(c + 1, r, w);
    assert (r - 1) * w + c == p - w;
    RowCol(c, r - 1, w);
    assert (r + 1) * w + c == p + w;
    RowCol(c, r + 1, w);
  }

  /** A grid narrower or shorter than three pixels has no interior pixel. */
  lemma NoInterior(p: nat, w: nat, h: nat)
    requires w >= 1 && (w < 3 || h < 3)
    ensures !Interior(p, w, h)
  {
  }

  /** Two pixels with the same row and column are the same pixel. */
  lemma SameCoords(q: nat, p: nat, w: nat)
    requires w >= 1 && Row(q, w) == Row(p, w) && Col(q, w) == Col(p, w)
    ensures q == p
  {
    assert q == Row(q, w) * w + Col(q, w);
    assert p == Row(p, w) * w + Col(p, w);
  }
}
