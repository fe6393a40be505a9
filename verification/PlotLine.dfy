/** The calculator's integer line drawer, whose loop ends only on reaching the endpoint. */
module PlotLine {
  import opened Arithmetic
  import opened Grid

  datatype Point = Point(x: int, y: int)

  function Abs(n: int): nat { if n < 0 then -n else n }

  function Max(a: int, b: int): int { if a < b then b else a }

  // ----- the geometry of one step, as offsets from the start

  /** The error term at offset (i, j). */
  function ErrorAt(dx: nat, dy: nat, i: nat, j: nat): int {
    dx - dy + (dx * j - dy * i)
  }

  /**
   A deviation of at most half the longer side; where the ideal line passes midway between
   two pixels it is the sign that decides which of them is drawn.
   */
  predicate Near(dx: int, dy: int, d: int) {
    if dx < dy then 0 - dy < 2 * d <= dy else if dx > 0 then 0 - dx <= 2 * d < dx else d == 0
  }

  /** The offset is within half a step of the ideal line, on the side that the drawer prefers. */
  predicate Close(dx: nat, dy: nat, i: nat, j: nat) {
    Near(dx, dy, dx * j - dy * i)
  }

  lemma NearIsSmall(dx: int, dy: int, d: int)
    requires Near(dx, dy, d) && 0 <= dx && 0 <= dy
    ensures 2 * Abs(d) <= Max(dx, dy)
  {
  }

  /** After n steps the longer axis has advanced by exactly n. */
  predicate OnCourse(dx: nat, dy: nat, i: nat, j: nat, n: nat) {
    Close(dx, dy, i, j) && i <= dx && j <= dy && (if dx >= dy then i == n else j == n)
  }

  function NextI(dy: int, i: nat, err: int): nat {
    if 2 * err > -dy then i + 1 else i
  }

  function NextJ(dx: int, j: nat, err: int): nat {
    if 2 * err < dx then j + 1 else j
  }

  /** The step rule on the deviation d alone: it stays within half of the longer side. */
  lemma DeviationStaysSmall(dx: int, dy: int, d: int)
    requires 0 <= dx && 0 <= dy && 0 < Max(dx, dy) && Near(dx, dy, d) && (dx == dy ==> d == 0)
    ensures
      var err := dx - dy + d;
      var d' := d - (if 2 * err > -dy then dy else 0) + (if 2 * err < dx then dx else 0);
      && Near(dx, dy, d')
      && (dx >= dy ==> 2 * err > -dy)
      && (dy >= dx ==> 2 * err < dx)
      && 2 * Abs(err) <= 3 * Max(dx, dy)
  {
  }

  lemma Deviation(dx: nat, dy: nat, i: nat, j: nat, a: nat, b: nat)
    ensures dx * (j + b) - dy * (i + a) == dx * j - dy * i - dy * a + dx * b
  {
  }

  lemma {:induction false} SmallMultiple(a: nat, k: int)
    requires a > 0 && 2 * Abs(a * k) <= a
    ensures k == 0 && a * k == 0
  {
    if k > 0 {
      MulMono(1, k, a);
    }
    if k < 0 {
      MulMono(k, -1, a);
    }
  }

  lemma {:induction false} DiagonalExact(dx: nat, i: nat, j: nat)
    requires dx > 0 && 2 * Abs(dx * j - dx * i) <= dx
    ensures dx * j - dx * i == 0
  {
    assert dx * j - dx * i == dx * (j - i);
    SmallMultiple(dx, j - i);
  }

  lemma {:induction false} StepDeviation(dx: nat, dy: nat, i: nat, j: nat)
    requires Close(dx, dy, i, j) && 0 < Max(dx, dy)
    ensures
      var err := ErrorAt(dx, dy, i, j);
      var i', j' := NextI(dy, i, err), NextJ(dx, j, err);
      && Close(dx, dy, i', j')
      && ErrorAt(dx, dy, i', j') == err - (if i' == i then 0 else dy) + (if j' == j then 0 else dx)
      && (dx >= dy ==> i' == i + 1)
      && (dy >= dx ==> j' == j + 1)
      && 2 * Abs(err) <= 3 * Max(dx, dy)
  {
    NearIsSmall(dx, dy, dx * j - dy * i);
    if dx == dy {
      DiagonalExact(dx, i, j);
    }
    var err := ErrorAt(dx, dy, i, j);
    StepError(dx, dy, i, j, NextI(dy, i, err) - i, NextJ(dx, j, err) - j);
    hide Max, Abs, ErrorAt;
    DeviationStaysSmall(dx, dy, err - (dx - dy));
  }

  lemma StepError(dx: nat, dy: nat, i: nat, j: nat, a: nat, b: nat)
    requires a <= 1 && b <= 1
    ensures ErrorAt(dx, dy, i + a, j + b)
      == ErrorAt(dx, dy, i, j) - (if a == 0 then 0 else dy) + (if b == 0 then 0 else dx)
  {
    Deviation(dx, dy, i, j, a, b);
  }

  /** One step advances the longer axis by one, stays close, and keeps err at its formula. */
  lemma {:induction false} StepStaysClose(dx: nat, dy: nat, i: nat, j: nat, n: nat)
    requires OnCourse(dx, dy, i, j, n) && n < Max(dx, dy)
    ensures
      var err := ErrorAt(dx, dy, i, j);
      var i', j' := NextI(dy, i, err), NextJ(dx, j, err);
      && OnCourse(dx, dy, i', j', n + 1)
      && ErrorAt(dx, dy, i', j') == err - (if i' == i then 0 else dy) + (if j' == j then 0 else dx)
      && 2 * Abs(err) <= 3 * Max(dx, dy)
  {
    hide ErrorAt, NextI, NextJ, Close, Abs;
    StepDeviation(dx, dy, i, j);
    var err := ErrorAt(dx, dy, i, j);
    ShorterInside(dx, dy, NextI(dy, i, err), NextJ(dx, j, err), n + 1);
  }

  lemma {:induction false} ShorterInside(dx: nat, dy: nat, i: nat, j: nat, n: nat)
    requires Close(dx, dy, i, j) && 0 < n <= Max(dx, dy) && (if dx >= dy then i == n else j == n)
    ensures i <= dx && j <= dy
  {
    hide Abs;
    NearIsSmall(dx, dy, dx * j - dy * i);
    if dx >= dy {
      Bounded(dx, dy, i, j);
    } else {
      AbsSwap(dx * j, dy * i);
      Bounded(dy, dx, j, i);
    }
  }

  lemma AbsSwap(a: int, b: int)
    ensures Abs(a - b) == Abs(b - a)
  {
  }

  /** On course, the longer axis is complete only at the endpoint itself. */
  lemma {:induction false} EndReached(dx: nat, dy: nat, i: nat, j: nat, n: nat)
    requires OnCourse(dx, dy, i, j, n)
    ensures n <= Max(dx, dy)
    ensures n == Max(dx, dy) <==> i == dx && j == dy
  {
    NearIsSmall(dx, dy, dx * j - dy * i);
    if n == Max(dx, dy) && dx > 0 && dx >= dy {
      assert dx * j - dy * dx == dx * (j - dy);
      SmallMultiple(dx, j - dy);
    }
    if n == Max(dx, dy) && dx < dy {
      assert dx * dy - dy * i == dy * (dx - i);
      SmallMultiple(dy, dx - i);
    }
  }

  /** The shorter axis never overshoots. */
  lemma {:induction false} Bounded(a: nat, b: nat, p: nat, q: nat)
    requires a >= b && a > 0 && p <= a && 2 * Abs(a * q - b * p) <= a
    ensures q <= b
  {
    MulMono(p, a, b);
    assert a * (b + 1) == b * a + a;
    if q > b {
      MulMono(b + 1, q, a);
    }
  }

  // ----- pixels

  /** A point colours itself and its right and lower neighbours. */
  predicate Dot(p: Point, x: int, y: int) {
    (x == p.x && y == p.y) || (x == p.x + 1 && y == p.y) || (x == p.x && y == p.y + 1)
  }

  ghost predicate Dotted(path: seq<Point>, x: int, y: int) {
    exists k :: 0 <= k < |path| && Dot(path[k], x, y)
  }

  /** The image is the old one with the dots of the path drawn over it. */
  ghost predicate Painted<C>(image: seq<C>, before: seq<C>, width: nat, height: nat, path: seq<Point>, color: C) {
    && |image| == |before| == width * height
    && forall x: nat, y: nat :: x < width && y < height && Index(x, y, width) < |image| ==>
      image[Index(x, y, width)] == if Dotted(path, x, y) then color else before[Index(x, y, width)]
  }

  /** calc_plot_put_pixel. */
  method PutPixel<C>(pixels: array<C>, width: nat, height: nat, x: int, y: int, color: C)
    requires pixels.Length == width * height
    modifies pixels
    ensures forall u: nat, v: nat :: u < width && v < height && Index(u, v, width) < pixels.Length ==>
      pixels[Index(u, v, width)] == if u == x && v == y then color else old(pixels[Index(u, v, width)])
  {
    if x < 0 || y < 0 || x >= width || y >= height {
      return;
    }
    IndexInside(x, y, width, height);
    pixels[Index(x, y, width)] := color;
    forall u: nat, v: nat | u < width && v < height && Index(u, v, width) == Index(x, y, width)
      ensures u == x && v == y
    {
      IndexInjective(u, v, x, y, width);
    }
  }

  method PutDot<C>(pixels: array<C>, width: nat, height: nat, p: Point, color: C)
    requires pixels.Length == width * height
    modifies pixels
    ensures forall u: nat, v: nat :: u < width && v < height && Index(u, v, width) < pixels.Length ==>
      pixels[Index(u, v, width)] == if Dot(p, u, v) then color else old(pixels[Index(u, v, width)])
  {
    hide Index;
    PutPixel(pixels, width, height, p.x, p.y, color);
    PutPixel(pixels, width, height, p.x + 1, p.y, color);
    PutPixel(pixels, width, height, p.x, p.y + 1, color);
  }

  lemma DotsGrow(path: seq<Point>, p: Point)
    ensures forall x: int, y: int :: Dotted(path + [p], x, y) <==> Dotted(path, x, y) || Dot(p, x, y)
  {
    hide Dot;
    forall x: int, y: int
      ensures Dotted(path + [p], x, y) <==> Dotted(path, x, y) || Dot(p, x, y)
    {
      if Dotted(path, x, y) {
        var k :| 0 <= k < |path| && Dot(path[k], x, y);
        assert (path + [p])[k] == path[k];
      }
      if Dot(p, x, y) {
        assert (path + [p])[|path|] == p;
      }
    }
  }

  // ----- the line

  /** The coordinate i steps from `a` on the way to `b`. */
  function Toward(a: int, b: int, i: nat): int { if a < b then a + i else a - i }

  /** The k-th visited point lies on the line's course from (x0, y0) to (x1, y1). */
  ghost predicate Visited(p: Point, k: nat, x0: int, y0: int, x1: int, y1: int) {
    && OnCourse(Abs(x1 - x0), Abs(y1 - y0), Abs(p.x - x0), Abs(p.y - y0), k)
    && (if x0 < x1 then x0 <= p.x <= x1 else x1 <= p.x <= x0)
    && (if y0 < y1 then y0 <= p.y <= y1 else y1 <= p.y <= y0)
  }

  /** The bounds leave no choice: at every step there is only one point on the course. */
  lemma {:induction false} OnlyOffset(dx: nat, dy: nat, i: nat, j: nat, i': nat, j': nat, n: nat)
    requires OnCourse(dx, dy, i, j, n) && OnCourse(dx, dy, i', j', n)
    ensures i == i' && j == j'
  {
    if dx >= dy && dx > 0 {
      assert dx * j - dx * j' == dx * (j - j');
      LessThanOne(dx, j - j');
    }
    if dx < dy {
      assert dy * i - dy * i' == dy * (i - i');
      LessThanOne(dy, i - i');
    }
  }

  lemma {:induction false} LessThanOne(a: nat, k: int)
    requires 0 - a < a * k < a
    ensures k == 0
  {
    if k > 0 {
      MulMono(1, k, a);
    }
    if k < 0 {
      MulMono(k, -1, a);
    }
  }

  lemma OnlyPoint(p: Point, q: Point, k: nat, x0: int, y0: int, x1: int, y1: int)
    requires Visited(p, k, x0, y0, x1, y1) && Visited(q, k, x0, y0, x1, y1)
    ensures p == q
  {
    hide OnCourse;
    OnlyOffset(Abs(x1 - x0), Abs(y1 - y0), Abs(p.x - x0), Abs(p.y - y0), Abs(q.x - x0), Abs(q.y - y0), k);
  }

  /** At a tie the drawer stays on the row, or column, it is on. */
  lemma TieStays()
    ensures Visited(Point(1, 0), 1, 0, 0, 2, 1) && !Visited(Point(1, 1), 1, 0, 0, 2, 1)
    ensures Visited(Point(0, 1), 1, 0, 0, 1, 2) && !Visited(Point(1, 1), 1, 0, 0, 1, 2)
  {
  }

  lemma VisitedHere(x0: int, y0: int, x1: int, y1: int, i: nat, j: nat, n: nat)
    requires OnCourse(Abs(x1 - x0), Abs(y1 - y0), i, j, n)
    ensures Visited(Point(Toward(x0, x1, i), Toward(y0, y1, j)), n, x0, y0, x1, y1)
    ensures Toward(x0, x1, i) == x1 && Toward(y0, y1, j) == y1 <==> n == Max(Abs(x1 - x0), Abs(y1 - y0))
  {
    hide Close;
    EndReached(Abs(x1 - x0), Abs(y1 - y0), i, j, n);
  }

  lemma Start(dx: nat, dy: nat)
    ensures OnCourse(dx, dy, 0, 0, 0) && ErrorAt(dx, dy, 0, 0) == dx - dy
  {
  }

  lemma AllVisited(path: seq<Point>, p: Point, x0: int, y0: int, x1: int, y1: int)
    requires forall k :: 0 <= k < |path| ==> Visited(path[k], k, x0, y0, x1, y1)
    requires Visited(p, |path|, x0, y0, x1, y1)
    ensures forall k :: 0 <= k < |path| + 1 ==> Visited((path + [p])[k], k, x0, y0, x1, y1)
  {
    hide Visited;
  }

  /**
   calc_plot_draw_line. It stops for all endpoints, after exactly max(dx, dy) steps, having
   visited only points within half a pixel of the line, and colours exactly their dots.
   */
  method DrawLine<C>(pixels: array<C>, width: nat, height: nat, x0: int, y0: int, x1: int, y1: int, color: C)
    returns (ghost path: seq<Point>)
    requires pixels.Length == width * height
    modifies pixels
    ensures |path| == Max(Abs(x1 - x0), Abs(y1 - y0)) + 1
    ensures path[0] == Point(x0, y0) && path[|path| - 1] == Point(x1, y1)
    ensures forall k :: 0 <= k < |path| ==> Visited(path[k], k, x0, y0, x1, y1)
    ensures Painted(pixels[..], old(pixels[..]), width, height, path, color)
  {
    hide OnCourse, Painted, Dot, Dotted, ErrorAt, Visited, Index;
    var dx := if x0 < x1 then x1 - x0 else x0 - x1;
    var dy := if y0 < y1 then y1 - y0 else y0 - y1;
    var sx := if x0 < x1 then 1 else -1;
    var sy := if y0 < y1 then 1 else -1;
    var err := dx - dy;
    var x, y := x0, y0;
    ghost var i: nat, j: nat := 0, 0;
    path := [];
    Start(dx, dy);
    NothingPainted(pixels[..], width, height, color);
    while true
      invariant x == Toward(x0, x1, i) && y == Toward(y0, y1, j) && err == ErrorAt(dx, dy, i, j)
      invariant OnCourse(dx, dy, i, j, |path|)
      invariant path == [] ==> i == j == 0
      invariant path != [] ==> path[0] == Point(x0, y0)
      invariant forall k :: 0 <= k < |path| ==> Visited(path[k], k, x0, y0, x1, y1)
      invariant Painted(pixels[..], old(pixels[..]), width, height, path, color)
      decreases Max(dx, dy) - |path|
    {
      ghost var n := |path|;
      ghost var before := pixels[..];
      PutDot(pixels, width, height, Point(x, y), color);
      PaintedMore(before, pixels[..], old(pixels[..]), width, height, path, Point(x, y), color);
      VisitedHere(x0, y0, x1, y1, i, j, n);
      AllVisited(path, Point(x, y), x0, y0, x1, y1);
      EndReached(dx, dy, i, j, n);
      path := path + [Point(x, y)];
      if x == x1 && y == y1 {
        break;
      }
      var e2 := err * 2;
      StepStaysClose(dx, dy, i, j, n);
      if e2 > -dy {
        err := err - dy;
        x := x + sx;
        i := i + 1;
      }
      if e2 < dx {
        err := err + dx;
        y := y + sy;
        j := j + 1;
      }
    }
  }

  predicate FitsInt(n: int) { -0x8000_0000 <= n < 0x8000_0000 }

  /**
   For endpoints up to 2^27, far beyond those of the plot, which lie within 800 columns and
   32 rows of its 480, every number of the loop is a 32-bit one: the doubled error, the two
   corrections, and the coordinates of the next point and of its dot.
   */
  lemma NoOverflow(x0: int, y0: int, x1: int, y1: int, i: nat, j: nat, n: nat)
    requires Abs(x0) <= 0x800_0000 && Abs(y0) <= 0x800_0000 && Abs(x1) <= 0x800_0000 && Abs(y1) <= 0x800_0000
    requires OnCourse(Abs(x1 - x0), Abs(y1 - y0), i, j, n)
    ensures
      var dx, dy := Abs(x1 - x0), Abs(y1 - y0);
      var err := ErrorAt(dx, dy, i, j);
      && FitsInt(dx) && FitsInt(0 - dy) && FitsInt(err * 2)
      && FitsInt(err - dy) && FitsInt(err + dx) && FitsInt(err - dy + dx)
    ensures
      var x, y := Toward(x0, x1, i), Toward(y0, y1, j);
      FitsInt(x - 1) && FitsInt(x + 1) && FitsInt(y - 1) && FitsInt(y + 1)
  {
    hide ErrorAt, Close, FitsInt, Toward, Max;
    var dx, dy := Abs(x1 - x0), Abs(y1 - y0);
    ErrorIsSmall(dx, dy, i, j);
    ErrorFits(dx, dy, ErrorAt(dx, dy, i, j));
    CoordinateFits(x0, x1, i);
    CoordinateFits(y0, y1, j);
  }

  lemma ErrorFits(dx: nat, dy: nat, err: int)
    requires dx <= 0x1000_0000 && dy <= 0x1000_0000 && 2 * Abs(err) <= 3 * Max(dx, dy)
    ensures FitsInt(dx) && FitsInt(0 - dy) && FitsInt(err * 2)
    ensures FitsInt(err - dy) && FitsInt(err + dx) && FitsInt(err - dy + dx)
  {
  }

  lemma CoordinateFits(a: int, b: int, i: nat)
    requires Abs(a) <= 0x800_0000 && Abs(b) <= 0x800_0000 && i <= Abs(b - a)
    ensures FitsInt(Toward(a, b, i) - 1) && FitsInt(Toward(a, b, i) + 1)
  {
  }

  lemma ErrorIsSmall(dx: nat, dy: nat, i: nat, j: nat)
    requires Close(dx, dy, i, j)
    ensures 2 * Abs(ErrorAt(dx, dy, i, j)) <= 3 * Max(dx, dy)
  {
    NearIsSmall(dx, dy, dx * j - dy * i);
  }

  lemma NothingPainted<C>(image: seq<C>, width: nat, height: nat, color: C)
    requires |image| == width * height
    ensures Painted(image, image, width, height, [], color)
  {
  }

  lemma PaintedMore<C>(before: seq<C>, after: seq<C>, original: seq<C>, width: nat, height: nat, path: seq<Point>,
                       p: Point, color: C)
    requires Painted(before, original, width, height, path, color) && |after| == |before|
    requires forall u: nat, v: nat :: u < width && v < height && Index(u, v, width) < |after| ==>
      after[Index(u, v, width)] == if Dot(p, u, v) then color else before[Index(u, v, width)]
    ensures Painted(after, original, width, height, path + [p], color)
  {
    hide Index, Dot, Dotted;
    DotsGrow(path, p);
  }
}
