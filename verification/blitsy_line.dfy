/**
 * lineplot: Bresenham rasterisation of the segment between two pixel
 * positions. The `plot` callback is modelled by the sequence of points it is
 * called with, in call order.
 */
module BlitsyLine {
  import opened JsNumbers

  function Abs(v: int): nat
  {
    if v < 0 then -v else v
  }

  /** Math.sign on integers. */
  function Sign(v: int): int
  {
    if v > 0 then 1 else if v < 0 then -1 else 0
  }

  /** `start + i * step` for a step of -1, 0 or 1, written without multiplication. */
  function Move(start: int, i: int, step: int): int
  {
    if step > 0 then start + i else if step < 0 then start - i else start
  }

  /**
   * The quantities the loop works with once the endpoints are truncated and,
   * for a steep line, mirrored: the major axis is x, the minor axis y.
   */
  datatype Setup = Setup(steep: bool, x0: int, y0: int, x1: int, y1: int,
                         dx: nat, dy: nat, xstep: int, ystep: int)

  function Prepare(x0: int, y0: int, x1: int, y1: int): (s: Setup)
    ensures s.dy <= s.dx && (s.dx == 0 ==> s.dy == 0)
    ensures s.dx == Abs(s.x1 - s.x0) && s.dy == Abs(s.y1 - s.y0)
    ensures s.x1 == Move(s.x0, s.dx, s.xstep) && s.y1 == Move(s.y0, s.dy, s.ystep)
    ensures s.xstep in {-1, 0, 1} && s.ystep in {-1, 0, 1} && (s.dx > 0 <==> s.xstep != 0)
    ensures Unmirror(s, s.x0, s.y0) == (Int32(x0), Int32(y0))
    ensures Unmirror(s, s.x1, s.y1) == (Int32(x1), Int32(y1))
  {
    var X0, Y0, X1, Y1 := Int32(x0), Int32(y0), Int32(x1), Int32(y1);
    var steep := Abs(Y1 - Y0) > Abs(X1 - X0);
    var a0, b0, a1, b1 := if steep then Y0 else X0, if steep then X0 else Y0,
                          if steep then Y1 else X1, if steep then X1 else Y1;
    Setup(steep, a0, b0, a1, b1, Abs(a1 - a0), Abs(b1 - b0), Sign(a1 - a0), Sign(b1 - b0))
  }

  /** A position on the (major, minor) axes as an (x, y) pixel position. */
  function Unmirror(s: Setup, major: int, minor: int): (int, int)
  {
    if s.steep then (minor, major) else (major, minor)
  }

  /**
   * How many minor-axis steps the line has taken after i major-axis steps:
   * i*dy/dx rounded to the nearest integer, halves rounded down.
   */
  function Minor(dx: nat, dy: nat, i: int): int
  {
    if dx == 0 then 0 else (i * dy - dx / 2 + dx - 1) / dx
  }

  /** The i-th point of the line, mirrored back for a steep line. */
  function Point(s: Setup, i: int): (int, int)
  {
    var major := Move(s.x0, i, s.xstep);
    var minor := Move(s.y0, Minor(s.dx, s.dy, i), s.ystep);
    Unmirror(s, major, minor)
  }

  /** Every point lineplot plots, in order: one per position along the major axis. */
  function Line(x0: int, y0: int, x1: int, y1: int): seq<(int, int)>
  {
    var s := Prepare(x0, y0, x1, y1);
    seq(s.dx + 1, i => Point(s, i))
  }

  // ---------------------------------------------------------------------------
  // The loop

  /** Line, point by point. */
  lemma LineIndex(x0: int, y0: int, x1: int, y1: int)
    ensures var s := Prepare(x0, y0, x1, y1);
      |Line(x0, y0, x1, y1)| == s.dx + 1 &&
      forall i :: 0 <= i <= s.dx ==> Line(x0, y0, x1, y1)[i] == Point(s, i)
  {
  }

  /** The error term pins down the minor step count. */
  lemma MinorUnique(dx: nat, dy: nat, i: int, k: int)
    requires dx > 0 && 0 <= dx / 2 + k * dx - i * dy < dx
    ensures Minor(dx, dy, i) == k
  {
    var m := i * dy - dx / 2 + dx - 1;
    assert m == k * dx + (dx - 1 - (dx / 2 + k * dx - i * dy));
    DivUnique(m, dx, k, dx - 1 - (dx / 2 + k * dx - i * dy));
  }

  /**
   * lineplot: the points come out exactly as Line lists them. Between
   * iterations the error term stays in [0, dx).
   */
  method Lineplot(x0: int, y0: int, x1: int, y1: int) returns (points: seq<(int, int)>)
    ensures points == Line(x0, y0, x1, y1)
  {
    LineIndex(x0, y0, x1, y1);
    // Truncation to 32 bits, the steep mirror, and the deltas and steps.
    var s := Prepare(x0, y0, x1, y1);
    var steep, X0, Y0, X1 := s.steep, s.x0, s.y0, s.x1;
    var dx, dy, xstep, ystep := s.dx, s.dy, s.xstep, s.ystep;

    var err: int := dx / 2;
    var y := Y0;
    points := [];
    if dx == 0 && dy == 0 {
      points := points + [(X0, Y0)];
    }

    var x := X0;
    ghost var i: int, k: int := 0, 0;
    ghost var kdx: int, idy: int := 0, 0;
    while x != X1 + xstep
      invariant 0 <= i <= dx + 1 && (dx == 0 ==> i == 0)
      invariant x == Move(X0, i, xstep) && y == Move(Y0, k, ystep)
      invariant kdx == k * dx && idy == i * dy && err == dx / 2 + kdx - idy
      invariant dx > 0 ==> 0 <= err < dx
      invariant |points| == (if dx == 0 then 1 else i)
      invariant forall j :: 0 <= j < |points| ==> points[j] == Point(s, j)
      decreases dx + 1 - i
    {
      MinorUnique(dx, dy, i, k);
      assert Point(s, i) == (if steep then (y, x) else (x, y));
      points := points + [if steep then (y, x) else (x, y)];
      err := err - dy;
      MulSucc(i, dy);
      idy := idy + dy;
      if err < 0 {
        y := y + ystep;
        err := err + dx;
        MulSucc(k, dx);
        k, kdx := k + 1, kdx + dx;
      }
      x := x + xstep;
      i := i + 1;
    }
  }

  // ---------------------------------------------------------------------------
  // Properties of the rasterised line

  /** The number of points is the longer side of the bounding box plus one. */
  lemma LineLength(x0: int, y0: int, x1: int, y1: int)
    ensures var dx, dy := Abs(Int32(x1) - Int32(x0)), Abs(Int32(y1) - Int32(y0));
      |Line(x0, y0, x1, y1)| == (if dx >= dy then dx else dy) + 1
  {
  }

  /** Equal endpoints give a single point. */
  lemma SinglePoint(x0: int, y0: int, x1: int, y1: int)
    requires Int32(x0) == Int32(x1) && Int32(y0) == Int32(y1)
    ensures Line(x0, y0, x1, y1) == [(Int32(x0), Int32(y0))]
  {
    var s := Prepare(x0, y0, x1, y1);
    assert Line(x0, y0, x1, y1)[0] == Point(s, 0);
  }

  /** After all dx major steps the line has taken all dy minor steps. */
  lemma MinorEnd(dx: nat, dy: nat)
    requires dy <= dx
    ensures Minor(dx, dy, dx) == dy
  {
    if dx > 0 {
      assert dx / 2 + dy * dx - dx * dy == dx / 2;
      MinorUnique(dx, dy, dx, dy);
    }
  }

  /** The line starts at (x0, y0) and ends at (x1, y1), both truncated to 32 bits. */
  lemma LineEnds(x0: int, y0: int, x1: int, y1: int)
    ensures var line := Line(x0, y0, x1, y1);
      line[0] == (Int32(x0), Int32(y0)) && line[|line| - 1] == (Int32(x1), Int32(y1))
  {
    var s := Prepare(x0, y0, x1, y1);
    var line := Line(x0, y0, x1, y1);
    LineIndex(x0, y0, x1, y1);
    if s.dx > 0 {
      MinorUnique(s.dx, s.dy, 0, 0);
    }
    assert line[0] == Point(s, 0);
    MinorEnd(s.dx, s.dy);
    assert line[|line| - 1] == Point(s, s.dx);
  }

  /** The minor step count grows by 0 or 1 from one major step to the next. */
  lemma MinorStep(dx: nat, dy: nat, i: int)
    requires 0 < dx && dy <= dx
    ensures Minor(dx, dy, i + 1) - Minor(dx, dy, i) in {0, 1}
  {
    var m := i * dy - dx / 2 + dx - 1;
    var q, r := m / dx, m % dx;
    assert (i + 1) * dy - dx / 2 + dx - 1 == m + dy;
    if r + dy < dx {
      DivUnique(m + dy, dx, q, r + dy);
    } else {
      assert m + dy == (q + 1) * dx + (r + dy - dx);
      DivUnique(m + dy, dx, q + 1, r + dy - dx);
    }
  }

  /**
   * Successive points are neighbours: each coordinate moves by 0 or by one
   * step towards the far endpoint, and they never coincide.
   */
  lemma LineSteps(x0: int, y0: int, x1: int, y1: int, i: int)
    requires 0 <= i < |Line(x0, y0, x1, y1)| - 1
    ensures var line := Line(x0, y0, x1, y1);
      && line[i + 1].0 - line[i].0 in {0, Sign(Int32(x1) - Int32(x0))}
      && line[i + 1].1 - line[i].1 in {0, Sign(Int32(y1) - Int32(y0))}
      && line[i + 1] != line[i]
  {
    var s := Prepare(x0, y0, x1, y1);
    MinorStep(s.dx, s.dy, i);
  }

  /** The minor coordinate is the nearest one: within half a pixel of i*dy/dx. */
  lemma MinorNearest(dx: nat, dy: nat, i: int)
    requires 0 < dx
    ensures -(dx as int) <= 2 * (Minor(dx, dy, i) * dx - i * dy) <= dx
  {
    var m := i * dy - dx / 2 + dx - 1;
    var q, r := m / dx, m % dx;
    assert m == q * dx + r && 0 <= r < dx;
    assert Minor(dx, dy, i) * dx - i * dy == dx - 1 - dx / 2 - r;
  }

  /**
   * Every plotted point lies within half a pixel of the exact segment,
   * measured along the minor axis: twice the cross product of (point - start)
   * and (end - start) is at most the major-axis length.
   */
  lemma LineNearSegment(x0: int, y0: int, x1: int, y1: int, i: int)
    requires 0 <= i < |Line(x0, y0, x1, y1)|
    ensures var p, X0, Y0 := Line(x0, y0, x1, y1)[i], Int32(x0), Int32(y0);
      Abs(2 * ((p.1 - Y0) * (Int32(x1) - X0) - (p.0 - X0) * (Int32(y1) - Y0)))
        <= |Line(x0, y0, x1, y1)| - 1
  {
    var s := Prepare(x0, y0, x1, y1);
    LineIndex(x0, y0, x1, y1);
    var major, minor := Move(s.x0, i, s.xstep), Move(s.y0, Minor(s.dx, s.dy, i), s.ystep);
    var p := Line(x0, y0, x1, y1)[i];
    assert p == Unmirror(s, major, minor);
    MirrorCross(s, major, minor, p.0, p.1, Int32(x0), Int32(y0), Int32(x1), Int32(y1));
    FrameNear(x0, y0, x1, y1, s, i, major, minor);
  }

  /** The point i steps along, in the major/minor frame, is within half a pixel of the segment. */
  lemma FrameNear(x0: int, y0: int, x1: int, y1: int, s: Setup, i: int, major: int, minor: int)
    requires s == Prepare(x0, y0, x1, y1) && 0 <= i <= s.dx
    requires major == Move(s.x0, i, s.xstep) && minor == Move(s.y0, Minor(s.dx, s.dy, i), s.ystep)
    ensures Abs(2 * FrameCross(s, major, minor)) <= s.dx
  {
    if s.dx > 0 {
      var k := Minor(s.dx, s.dy, i);
      MinorNearest(s.dx, s.dy, i);
      FrameBound(major - s.x0, minor - s.y0, s.x1 - s.x0, s.y1 - s.y0, s.dx, s.dy, i, k, s.xstep, s.ystep);
    }
  }

  /** The cross product of (point - start) and (end - start), in the major/minor frame. */
  function FrameCross(s: Setup, major: int, minor: int): int
  {
    (minor - s.y0) * (s.x1 - s.x0) - (major - s.x0) * (s.y1 - s.y0)
  }

  /** Mirroring a steep line swaps the axes, which only flips the sign of the cross product. */
  lemma MirrorCross(s: Setup, major: int, minor: int, px: int, py: int, sx: int, sy: int, ex: int, ey: int)
    requires (px, py) == Unmirror(s, major, minor)
    requires (sx, sy) == Unmirror(s, s.x0, s.y0) && (ex, ey) == Unmirror(s, s.x1, s.y1)
    ensures Abs(2 * ((py - sy) * (ex - sx) - (px - sx) * (ey - sy))) == Abs(2 * FrameCross(s, major, minor))
  {
  }

  /** The cross product in the major/minor frame is at most half the major length. */
  lemma FrameBound(u: int, v: int, ex: int, ey: int, dx: int, dy: int, i: int, k: int, xs: int, ys: int)
    requires u == Move(0, i, xs) && v == Move(0, k, ys) && ex == Move(0, dx, xs) && ey == Move(0, dy, ys)
    requires xs in {-1, 1} && ys in {-1, 0, 1} && dx > 0 && -dx <= 2 * (k * dx - i * dy) <= dx
    ensures Abs(2 * (v * ex - u * ey)) <= dx
  {
    Cross(i, k, dx, dy, xs, ys);
  }

  /** The cross product of the offsets, in the major/minor frame, with the signs taken out. */
  lemma Cross(i: int, k: int, dx: int, dy: int, xs: int, ys: int)
    requires xs in {-1, 1} && ys in {-1, 0, 1}
    ensures Abs(Move(0, i, xs) * Move(0, dy, ys) - Move(0, k, ys) * Move(0, dx, xs))
         == if ys == 0 then 0 else Abs(k * dx - i * dy)
  {
  }
}
