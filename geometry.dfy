/**
 * The coordinate mapper of the board: 1-based board coordinates, 0-based
 * cell indices, pointer offsets, and the nominal stone radius.
 */
module Geometry {

  /** JavaScript's `%` on integers: the remainder takes the sign of the dividend. */
  function JsRem(a: int, b: int): (r: int)
    requires b > 0
    ensures a >= 0 ==> 0 <= r < b
    ensures a < 0 ==> -b < r <= 0
    ensures a == b * (if a >= 0 then a / b else -((-a) / b)) + r
  {
    if a >= 0 then a % b else -((-a) % b)
  }

  predicate OnBoard(w: int, h: int, x: int, y: int) {
    1 <= x <= w && 1 <= y <= h
  }

  /** `xyToPoint`: the row-major cell index of the 1-based coordinate (x, y). */
  function XyToPoint(w: int, x: int, y: int): int {
    (x - 1) + (y - 1) * w
  }

  /** Every on-board coordinate lands inside [0, w*h). */
  lemma XyToPointInRange(w: int, h: int, x: int, y: int)
    requires OnBoard(w, h, x, y)
    ensures 0 <= XyToPoint(w, x, y) < w * h
  {
    assert (y - 1) * w <= (h - 1) * w by {
      MulMonotone(y - 1, h - 1, w);
    }
    assert (h - 1) * w + w == h * w;
  }

  lemma MulMonotone(a: int, b: int, c: int)
    requires a <= b && 0 <= c
    ensures a * c <= b * c
  {
    assert b * c - a * c == (b - a) * c;
  }

  /** Two on-board coordinates with the same index are the same coordinate. */
  lemma XyToPointInjective(w: int, h: int, x1: int, y1: int, x2: int, y2: int)
    requires OnBoard(w, h, x1, y1) && OnBoard(w, h, x2, y2)
    requires XyToPoint(w, x1, y1) == XyToPoint(w, x2, y2)
    ensures x1 == x2 && y1 == y2
  {
    if y1 < y2 {
      assert (y1 + 1 - 1) * w == (y1 - 1) * w + w;
      MulMonotone(y1 + 1, y2, w);
      assert false;
    } else if y2 < y1 {
      assert (y2 + 1 - 1) * w == (y2 - 1) * w + w;
      MulMonotone(y2 + 1, y1, w);
      assert false;
    }
  }

  /**
   * `pointToXy` as the source writes it: `y = p % W`, `x = p - y*W`, the pair
   * `[x + 1, y + 1]`. It undoes `xyToPoint` for every index, and its second
   * component is in 1..W for every index p >= 0; its first component is not
   * the column (see PointToXyMisplacesCell).
   */
  function PointToXy(w: int, p: int): (xy: (int, int))
    requires w >= 1
    ensures XyToPoint(w, xy.0, xy.1) == p
    ensures p >= 0 ==> 1 <= xy.1 <= w
  {
    var y := JsRem(p, w);
    var x := p - y * w;
    (x + 1, y + 1)
  }

  /**
   * `pointToXy` does not invert `xyToPoint` on the board: the cell (3, 2) of a
   * board three cells wide has index 5, which `pointToXy` sends to (0, 3).
   */
  lemma PointToXyMisplacesCell()
    ensures OnBoard(3, 3, 3, 2) && XyToPoint(3, 3, 2) == 5
    ensures PointToXy(3, 5) == (0, 3) && !OnBoard(3, 3, 0, 3)
  {
  }

  /** The evidently intended `pointToXy`: the row is `floor(p / W)`. */
  function PointToXyIntended(w: int, p: int): (xy: (int, int))
    requires w >= 1
    ensures XyToPoint(w, xy.0, xy.1) == p
    ensures p >= 0 ==> 1 <= xy.0 <= w && 1 <= xy.1
  {
    var y := p / w;
    var x := p - y * w;
    (x + 1, y + 1)
  }

  /** The intended inverse maps [0, w*h) onto the board and undoes `xyToPoint` there. */
  lemma PointToXyIntendedInverse(w: int, h: int, x: int, y: int, p: int)
    requires w >= 1
    ensures OnBoard(w, h, x, y) ==> PointToXyIntended(w, XyToPoint(w, x, y)) == (x, y)
    ensures 0 <= p < w * h ==> OnBoard(w, h, PointToXyIntended(w, p).0, PointToXyIntended(w, p).1)
  {
    if OnBoard(w, h, x, y) {
      var xy := PointToXyIntended(w, XyToPoint(w, x, y));
      XyToPointInRange(w, h, x, y);
      XyToPointInRange(w, h + xy.1, xy.0, xy.1);
      XyToPointInjective(w, h + xy.1, x, y, xy.0, xy.1);
    }
    if 0 <= p < w * h {
      var xy := PointToXyIntended(w, p);
      if xy.1 > h {
        MulMonotone(h, xy.1 - 1, w);
        assert false;
      }
    }
  }

  /**
   * The overlay's leaf ids, in the order the element creates them: rows
   * y = 1..h, and within a row x = 1..w, each leaf named `xyToPoint(x, y)`.
   * They are exactly 0, 1, ..., w*h - 1, so every cell index names one leaf.
   */
  method LeafIds(w: int, h: int) returns (ids: seq<int>)
    requires w >= 0 && h >= 0
    ensures |ids| == w * h
    ensures forall k :: 0 <= k < |ids| ==> ids[k] == k
  {
    ids := [];
    var y := 1;
    while y <= h
      invariant 1 <= y <= h + 1
      invariant |ids| == (y - 1) * w
      invariant forall k :: 0 <= k < |ids| ==> ids[k] == k
    {
      var x := 1;
      while x <= w
        invariant 1 <= x <= w + 1
        invariant |ids| == (y - 1) * w + (x - 1)
        invariant forall k :: 0 <= k < |ids| ==> ids[k] == k
      {
        ids := ids + [XyToPoint(w, x, y)];
        x := x + 1;
      }
      assert (y - 1) * w + w == y * w;
      y := y + 1;
    }
  }

  /**
   * The pointer mapping of `clickHandler`: `floor(n * offset / size) + 1`,
   * where `offset` is the pointer's distance from the surface's left (top)
   * edge in pixels and `size` the surface's rendered width (height).
   */
  function ClickCoordinate(n: int, offset: real, size: int): int
    requires size > 0
  {
    Scaled(n, offset, size).Floor + 1
  }

  /** The pointer's position in cell units, `n * offset / size`. */
  function Scaled(n: int, offset: real, size: int): real
    requires size > 0
  {
    (n as real) * offset / (size as real)
  }

  /** An offset inside the surface maps to a coordinate in 1..n. */
  lemma ClickCoordinateInRange(n: int, offset: real, size: int)
    requires n >= 1 && size > 0
    requires 0.0 <= offset < size as real
    ensures 1 <= ClickCoordinate(n, offset, size) <= n
  {
    var q := Scaled(n, offset, size);
    assert 0.0 <= q;
    assert q < n as real by {
      assert (n as real) * offset < (n as real) * (size as real);
    }
    assert q.Floor as real <= q;
  }

  /**
   * The corners: offset 0 gives 1; offset size - 1 gives n when the surface
   * has at least one pixel per cell; offset size (the far edge) gives n + 1,
   * because the mapping does not clamp.
   */
  lemma ClickCoordinateEdges(n: int, size: int)
    requires n >= 1 && size > 0
    ensures ClickCoordinate(n, 0.0, size) == 1
    ensures n <= size ==> ClickCoordinate(n, (size - 1) as real, size) == n
    ensures ClickCoordinate(n, size as real, size) == n + 1
  {
    assert Scaled(n, 0.0, size) == 0.0;
    assert Scaled(n, size as real, size) == n as real;
    if n <= size {
      var q := Scaled(n, (size - 1) as real, size);
      assert (n - 1) as real <= q by {
        assert (n - 1) as real * (size as real) <= (n as real) * ((size - 1) as real);
      }
      ClickCoordinateInRange(n, (size - 1) as real, size);
    }
  }

  function Min(a: real, b: real): real {
    if a < b then a else b
  }

  /**
   * `stoneSize = min(width / W, height / H) / 2`: a stone's diameter fits both
   * the cell width and the cell height, and matches one of them.
   */
  function StoneSize(width: int, height: int, w: int, h: int): (r: real)
    requires w >= 1 && h >= 1
    ensures 2.0 * r <= width as real / w as real
    ensures 2.0 * r <= height as real / h as real
    ensures 2.0 * r == width as real / w as real || 2.0 * r == height as real / h as real
    ensures width >= 0 && height >= 0 ==> r >= 0.0
  {
    Min(width as real / w as real, height as real / h as real) / 2.0
  }
}
