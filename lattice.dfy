/** Integer grid points and the L-shaped lattice path both generators route their
    corridors along: first a horizontal run to the target column, then a vertical
    run to the target row. The BSP generator's Point struct and GoRogue's Coord are
    both modelled by `Point`. */
module Lattice {

  datatype Point = Point(x: int, y: int)

  /** Math.Sign. */
  function Sign(n: int): (s: int)
    ensures n > 0 ==> s == 1
    ensures n == 0 ==> s == 0
    ensures n < 0 ==> s == -1
  {
    if n > 0 then 1 else if n < 0 then -1 else 0
  }

  function Abs(n: int): nat { if n < 0 then -n else n }

  /** C#'s integer division, which truncates toward zero (Dafny's `/` is
      Euclidean): the remainder is smaller than the divisor and takes the sign of
      the dividend. */
  function Quot(a: int, b: int): (q: int)
    requires b != 0
    ensures Abs(a - q * b) < Abs(b)
    ensures a - q * b == 0 || (a - q * b > 0 <==> a > 0)
  {
    QuotRemainder(a, b);
    if a >= 0 || a % b == 0 then a / b else a / b + (if b > 0 then 1 else -1)
  }

  /** The remainder left by each branch of `Quot`, from Euclidean `/` and `%`. */
  lemma QuotRemainder(a: int, b: int)
    requires b != 0
    ensures a >= 0 || a % b == 0 ==> a - (a / b) * b == a % b
    ensures a < 0 && a % b != 0 && b > 0 ==> a - (a / b + 1) * b == a % b - b
    ensures a < 0 && a % b != 0 && b < 0 ==> a - (a / b - 1) * b == a % b + b
  {
    assert a == (a / b) * b + a % b;
    assert (a / b + 1) * b == (a / b) * b + b;
    assert (a / b - 1) * b == (a / b) * b - b;
  }

  function Min(a: int, b: int): int { if a <= b then a else b }

  function Max(a: int, b: int): int { if a <= b then b else a }

  /** The `i`-th point of the L path from `s` to `e`: the first `|dx|` steps move
      along x, the rest along y. */
  function PathPoint(s: Point, e: Point, i: int): Point
  {
    var hx := Abs(e.x - s.x);
    if i <= hx then Point(s.x + Sign(e.x - s.x) * i, s.y)
    else Point(e.x, s.y + Sign(e.y - s.y) * (i - hx))
  }

  /** Reference definition of the corridor path between two points, one point
      per lattice step, both ends included. */
  function LPath(s: Point, e: Point): (p: seq<Point>)
    ensures |p| == Abs(e.x - s.x) + Abs(e.y - s.y) + 1
  {
    seq(Abs(e.x - s.x) + Abs(e.y - s.y) + 1, i => PathPoint(s, e, i))
  }

  /** Two points one lattice step apart: they differ by one on exactly one axis. */
  predicate UnitStep(a: Point, b: Point)
  {
    (a.y == b.y && Abs(a.x - b.x) == 1) || (a.x == b.x && Abs(a.y - b.y) == 1)
  }

  predicate HorizontalStep(a: Point, b: Point)
  {
    a.y == b.y && Abs(a.x - b.x) == 1
  }

  lemma LPathEnds(s: Point, e: Point)
    ensures LPath(s, e)[0] == s
    ensures LPath(s, e)[|LPath(s, e)| - 1] == e
  {
    var p := LPath(s, e);
    var hx := Abs(e.x - s.x);
    var last := |p| - 1;
    if last <= hx {
      assert e.y == s.y && last == hx;
      assert Sign(e.x - s.x) * hx == e.x - s.x;
    } else {
      assert Sign(e.y - s.y) * (last - hx) == e.y - s.y;
    }
  }

  /** Consecutive points of the path are one lattice step apart, and every
      horizontal step comes before every vertical one. */
  lemma LPathSteps(s: Point, e: Point, i: int)
    requires 0 <= i < |LPath(s, e)| - 1
    ensures UnitStep(LPath(s, e)[i], LPath(s, e)[i + 1])
    ensures HorizontalStep(LPath(s, e)[i], LPath(s, e)[i + 1]) <==> i < Abs(e.x - s.x)
  {
    var hx := Abs(e.x - s.x);
    var sx, sy := Sign(e.x - s.x), Sign(e.y - s.y);
    if i < hx {
      assert sx != 0;
      assert s.x + sx * (i + 1) - (s.x + sx * i) == sx;
    } else if i == hx {
      assert sy != 0;
      assert s.x + sx * hx == e.x;
      assert s.y + sy * 1 - s.y == sy;
    } else {
      assert sy != 0;
      assert s.y + sy * (i + 1 - hx) - (s.y + sy * (i - hx)) == sy;
    }
  }

  /** No horizontal step follows a vertical one. */
  lemma LPathHorizontalFirst(s: Point, e: Point, i: int, j: int)
    requires 0 <= i < j < |LPath(s, e)| - 1
    requires HorizontalStep(LPath(s, e)[j], LPath(s, e)[j + 1])
    ensures HorizontalStep(LPath(s, e)[i], LPath(s, e)[i + 1])
  {
    LPathSteps(s, e, i);
    LPathSteps(s, e, j);
  }

  /** Every path point lies in the bounding box of its two ends. */
  lemma LPathInBox(s: Point, e: Point, i: int)
    requires 0 <= i < |LPath(s, e)|
    ensures Min(s.x, e.x) <= LPath(s, e)[i].x <= Max(s.x, e.x)
    ensures Min(s.y, e.y) <= LPath(s, e)[i].y <= Max(s.y, e.y)
    ensures i <= Abs(e.x - s.x) ==> LPath(s, e)[i].y == s.y
    ensures i >= Abs(e.x - s.x) ==> LPath(s, e)[i].x == e.x
  {
    var hx := Abs(e.x - s.x);
    var sx, sy := Sign(e.x - s.x), Sign(e.y - s.y);
    if i <= hx {
      if sx > 0 { assert sx * i == i; } else if sx < 0 { assert sx * i == -i; } else { assert sx * i == 0; }
      assert s.x + sx * hx == e.x;
    } else {
      var k := i - hx;
      if sy > 0 { assert sy * k == k; } else { assert sy * k == -k; }
    }
  }

  /** Along the horizontal run the path keeps the start's row, reaches the end's
      column only at its last step, and each step moves one column toward it. */
  lemma WalkX(s: Point, e: Point, i: int)
    requires 0 <= i <= Abs(e.x - s.x)
    ensures PathPoint(s, e, i).y == s.y
    ensures PathPoint(s, e, i).x == e.x <==> i == Abs(e.x - s.x)
    ensures i < Abs(e.x - s.x) ==>
      PathPoint(s, e, i + 1) == Point(PathPoint(s, e, i).x + Sign(e.x - PathPoint(s, e, i).x), s.y)
  {
    var sx := Sign(e.x - s.x);
    if sx > 0 { assert sx * i == i; assert sx * (i + 1) == i + 1; }
    else if sx < 0 { assert sx * i == -i; assert sx * (i + 1) == -i - 1; }
    else { assert sx * i == 0; }
  }

  /** Along the vertical run the path keeps the end's column, reaches the end
      only at its last point, and each step moves one row toward it. */
  lemma WalkY(s: Point, e: Point, i: int)
    requires Abs(e.x - s.x) <= i <= Abs(e.x - s.x) + Abs(e.y - s.y)
    ensures PathPoint(s, e, i).x == e.x
    ensures PathPoint(s, e, i).y == e.y <==> i == Abs(e.x - s.x) + Abs(e.y - s.y)
    ensures i < Abs(e.x - s.x) + Abs(e.y - s.y) ==>
      PathPoint(s, e, i + 1) == Point(e.x, PathPoint(s, e, i).y + Sign(e.y - PathPoint(s, e, i).y))
  {
    var hx: int := Abs(e.x - s.x);
    var sx, sy := Sign(e.x - s.x), Sign(e.y - s.y);
    var k := i - hx;
    if sx > 0 { assert sx * hx == hx; } else if sx < 0 { assert sx * hx == -hx; } else { assert sx * hx == 0; }
    if sy > 0 { assert sy * k == k; assert sy * (k + 1) == k + 1; }
    else if sy < 0 { assert sy * k == -k; assert sy * (k + 1) == -k - 1; }
    else { assert sy * k == 0; }
  }

  /** Two grids, stored column by column, with the same extents and the same
      cells are equal. */
  lemma GridsEqual<T>(a: seq<seq<T>>, b: seq<seq<T>>)
    requires |a| == |b| && forall x :: 0 <= x < |a| ==> |a[x]| == |b[x]|
    requires forall x, y :: 0 <= x < |a| && 0 <= y < |a[x]| ==> a[x][y] == b[x][y]
    ensures a == b
  {
    forall x | 0 <= x < |a|
      ensures a[x] == b[x]
    {
    }
  }
}
