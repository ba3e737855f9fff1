/** Bresenham lines: graphics_draw_line (src/graphics/graphics.c:409-443). */
module Line {
  import opened Arithmetic
  import opened Surface

  function Abs(n: int): nat {
    if n < 0 then -n else n
  }

  /** The minor coordinate after k of `major` steps: k * minor / major rounded to the
      nearest integer, halves down. */
  function Rounded(k: nat, minor: nat, major: nat): int {
    if major == 0 then 0 else (2 * (k * minor) + major - 1) / (2 * major)
  }

  function Steps(start: Point, end: Point): nat {
    var dx, dy := Abs(end.x - start.x), Abs(end.y - start.y);
    if dx >= dy then dx else dy
  }

  /** k unit steps from one coordinate towards another */
  function Toward(from: int, to: int, k: int): int {
    if from < to then from + k else from - k
  }

  /** Point k of the ideal line, rounded to the grid. */
  function LinePoint(start: Point, end: Point, k: nat): Point {
    var dx, dy := Abs(end.x - start.x), Abs(end.y - start.y);
    if dx >= dy then Point(Toward(start.x, end.x, k), Toward(start.y, end.y, Rounded(k, dy, dx)))
    else Point(Toward(start.x, end.x, Rounded(k, dx, dy)), Toward(start.y, end.y, k))
  }

  function LinePoints(start: Point, end: Point, n: nat): (s: seq<Point>)
    ensures |s| == n && forall k | 0 <= k < n :: s[k] == LinePoint(start, end, k)
  {
    seq(n, k requires 0 <= k < n => LinePoint(start, end, k))
  }

  /** m minor steps in k major ones are within half a pixel of the line, and on the
      lower side when exactly half way. */
  predicate OnLine(k: nat, m: int, minor: nat, major: nat) {
    if major == 0 then k == 0 && m == 0
    else 0 <= 2 * (m * major - k * minor) + major < 2 * major
  }

  lemma OnLineIsRounded(k: nat, m: int, minor: nat, major: nat)
    requires OnLine(k, m, minor, major)
    ensures m == Rounded(k, minor, major)
  {
    if major > 0 {
      Twice(m, major);
      Quotient(2 * (k * minor) + major - 1, 2 * major, m, 2 * (k * minor - m * major) + major - 1);
    }
  }

  /** One round of the loop, for either axis: a step on the major axis, and one on the
      minor axis exactly when the line has moved on by more than half a pixel. */
  lemma OnLineStep(k: nat, m: int, minor: nat, major: nat)
    requires OnLine(k, m, minor, major) && minor <= major && 0 < major
    requires minor == major ==> m == k
    ensures var e := 2 * (m * major - k * minor);
            && e + 2 * major > minor
            && OnLine(k + 1, if e + major < 2 * minor then m + 1 else m, minor, major)
            && (minor == major ==> e + major < 2 * minor)
  {
    Rows(k + 1, minor);
    Rows(m + 1, major);
  }

  lemma OnLineEnd(k: nat, m: int, minor: nat, major: nat)
    requires OnLine(k, m, minor, major) && minor <= major
    ensures k == major ==> m == minor
    ensures k <= major ==> 0 <= m <= minor
  {
    if major > 0 && k <= major {
      if m < 0 {
        Multiple(m, 0, major);
      }
      if minor < m {
        Multiple(minor, m, major);
        if k < major { Multiple(k, major, minor); }
      }
      if m < minor {
        Multiple(m, minor, major);
      }
    }
  }

  /** The loop's state after k rounds: a steps in x, b steps in y, and the error term. */
  predicate LineState(dx: nat, dy: nat, k: nat, a: int, b: int, err: int) {
    && err == dx - dy - a * dy + b * dx
    && if dx >= dy then a == k && OnLine(k, b, dy, dx) && (dx == dy ==> b == k)
       else b == k && OnLine(k, a, dx, dy)
  }

  lemma LineStart(start: Point, end: Point)
    ensures var dx, dy := Abs(end.x - start.x), Abs(end.y - start.y); LineState(dx, dy, 0, 0, 0, dx - dy)
  {
  }

  lemma OnePointMore(start: Point, end: Point, k: nat)
    ensures LinePoints(start, end, k + 1) == LinePoints(start, end, k) + [LinePoint(start, end, k)]
  {
  }

  lemma LineRound(dx: nat, dy: nat, k: nat, a: int, b: int, err: int)
    requires LineState(dx, dy, k, a, b, err) && (dx > 0 || dy > 0)
    ensures var e2 := 2 * err;
            var stepX, stepY := e2 + dy > 0, e2 < dx;
            LineState(dx, dy, k + 1, if stepX then a + 1 else a, if stepY then b + 1 else b,
                      err - (if stepX then dy else 0) + (if stepY then dx else 0))
  {
    if dx >= dy {
      OnLineStep(k, b, dy, dx);
    } else {
      OnLineStep(k, a, dx, dy);
    }
    Rows(a + 1, dy);
    Rows(b + 1, dx);
  }

  lemma LineReached(start: Point, end: Point, k: nat, a: int, b: int, err: int)
    requires LineState(Abs(end.x - start.x), Abs(end.y - start.y), k, a, b, err) && k <= Steps(start, end)
    ensures LinePoint(start, end, k) == Point(Toward(start.x, end.x, a), Toward(start.y, end.y, b))
    ensures LinePoint(start, end, k) == end <==> k == Steps(start, end)
  {
    var dx, dy := Abs(end.x - start.x), Abs(end.y - start.y);
    if dx >= dy {
      OnLineIsRounded(k, b, dy, dx);
      OnLineEnd(k, b, dy, dx);
    } else {
      OnLineIsRounded(k, a, dx, dy);
      OnLineEnd(k, a, dx, dy);
    }
  }

  /** graphics_draw_line: it ends, and plots exactly the rounded points of the ideal line. */
  method DrawLine(surface: GraphicsSurface, start: Point, end: Point, color: Color)
    requires surface.Valid()
    modifies surface.pixels
    ensures surface.pixels[..] == PlotAll(old(surface.pixels[..]), surface.frame,
                                          LinePoints(start, end, Steps(start, end) + 1), color)
  {
    var dx: int, dy: int := Abs(end.x - start.x), Abs(end.y - start.y);
    var sx := if start.x < end.x then 1 else -1;
    var sy := if start.y < end.y then 1 else -1;
    var err := dx - dy;
    var x, y := start.x, start.y;
    hide LineState, LinePoint, LinePoints, PlotAll, Plot;
    LineStart(start, end);
    PlotNothing(surface.pixels[..], surface.frame, LinePoints(start, end, 0), color);
    ghost var k, a, b := 0, 0, 0;
    ghost var pixels := surface.pixels[..];
    while true
      invariant k <= Steps(start, end) && LineState(dx, dy, k, a, b, err)
      invariant x == Toward(start.x, end.x, a) && y == Toward(start.y, end.y, b)
      invariant surface.pixels[..] == PlotAll(pixels, surface.frame, LinePoints(start, end, k), color)
      decreases Steps(start, end) - k
    {
      LineReached(start, end, k, a, b, err);
      PlotOneMore(pixels, surface.frame, LinePoints(start, end, k), Point(x, y), color);
      OnePointMore(start, end, k);
      surface.SetPixel(x, y, color);
      if x == end.x && y == end.y {
        break;
      }
      LineRound(dx, dy, k, a, b, err);
      var e2 := 2 * err;
      if e2 > -dy {
        err := err - dy;
        x := x + sx;
        a := a + 1;
      }
      if e2 < dx {
        err := err + dx;
        y := y + sy;
        b := b + 1;
      }
      k := k + 1;
    }
  }

  // -------------------------------------------------------------- geometry

  lemma RoundedOnLine(k: nat, minor: nat, major: nat)
    requires minor <= major && k <= major
    ensures OnLine(k, Rounded(k, minor, major), minor, major)
  {
    if major > 0 {
      Product(k, minor);
      Divided(2 * (k * minor) + major - 1, 2 * major);
      Twice(Rounded(k, minor, major), major);
    }
  }

  /** The line starts and ends where it should. */
  lemma LineEnds(start: Point, end: Point)
    ensures LinePoint(start, end, 0) == start
    ensures LinePoint(start, end, Steps(start, end)) == end
  {
    var dx, dy := Abs(end.x - start.x), Abs(end.y - start.y);
    var major, minor := if dx >= dy then dx else dy, if dx >= dy then dy else dx;
    RoundedOnLine(0, minor, major);
    OnLineEnd(0, Rounded(0, minor, major), minor, major);
    assert major > 0 ==> OnLine(0, 0, minor, major);
    OnLineIsRounded(0, 0, minor, major);
    RoundedOnLine(major, minor, major);
    OnLineEnd(major, Rounded(major, minor, major), minor, major);
  }

  /** Each plotted point is an 8-neighbour of the one before, one step on along the major axis. */
  lemma LineNeighbours(start: Point, end: Point, k: nat)
    requires k < Steps(start, end)
    ensures var p, q := LinePoint(start, end, k), LinePoint(start, end, k + 1);
            Abs(q.x - p.x) <= 1 && Abs(q.y - p.y) <= 1 && p != q
  {
    var dx, dy := Abs(end.x - start.x), Abs(end.y - start.y);
    var major, minor := if dx >= dy then dx else dy, if dx >= dy then dy else dx;
    NextRounded(k, minor, major);
  }

  lemma NextRounded(k: nat, minor: nat, major: nat)
    requires minor <= major && k < major
    ensures 0 <= Rounded(k + 1, minor, major) - Rounded(k, minor, major) <= 1
  {
    var m := Rounded(k, minor, major);
    RoundedOnLine(k, minor, major);
    Rows(k + 1, minor);
    Rows(m + 1, major);
    var e := 2 * (m * major - k * minor);
    OnLineIsRounded(k + 1, if e + major < 2 * minor then m + 1 else m, minor, major);
  }

  /** Twice the area of the triangle that p and the two end points span */
  function Cross(start: Point, end: Point, p: Point): int {
    (p.y - start.y) * (end.x - start.x) - (p.x - start.x) * (end.y - start.y)
  }

  /** Off the major axis, every plotted point is within half a pixel of the line through
      the two end points: twice the cross product is at most the longer side. */
  lemma LineHalfPixel(start: Point, end: Point, k: nat)
    requires k <= Steps(start, end)
    ensures 2 * Abs(Cross(start, end, LinePoint(start, end, k))) <= Steps(start, end)
  {
    var dx, dy := Abs(end.x - start.x), Abs(end.y - start.y);
    var major, minor := if dx >= dy then dx else dy, if dx >= dy then dy else dx;
    var m := Rounded(k, minor, major);
    RoundedOnLine(k, minor, major);
    WithinHalf(k, m, minor, major);
    CrossOf(start, end, k);
  }

  lemma CrossOf(start: Point, end: Point, k: nat)
    ensures var dx, dy := Abs(end.x - start.x), Abs(end.y - start.y);
            var major, minor := if dx >= dy then dx else dy, if dx >= dy then dy else dx;
            Abs(Cross(start, end, LinePoint(start, end, k))) == Abs(Rounded(k, minor, major) * major - k * minor)
  {
    hide Rounded, Toward;
    var dx, dy := Abs(end.x - start.x), Abs(end.y - start.y);
    if dx >= dy {
      Crossed(start.x, end.x, start.y, end.y, k, Rounded(k, dy, dx));
    } else {
      Crossed(start.y, end.y, start.x, end.x, k, Rounded(k, dx, dy));
    }
  }

  lemma WithinHalf(k: nat, m: int, minor: nat, major: nat)
    requires OnLine(k, m, minor, major)
    ensures 2 * Abs(m * major - k * minor) <= major
  {
    if major == 0 {
      assert m * major == 0 && k * minor == 0;
    }
  }

  /** Steps taken towards the end on two axes, multiplied crosswise */
  lemma Crossed(from: int, to: int, from': int, to': int, k: int, m: int)
    ensures var a, b := Toward(from, to, k) - from, Toward(from', to', m) - from';
            Abs(b * (to - from) - a * (to' - from')) == Abs(m * Abs(to - from) - k * Abs(to' - from'))
  {
    Signs(m, to - from);
    Signs(k, to' - from');
  }

  lemma Signs(a: int, b: int)
    ensures -a * b == -(a * b) == a * -b && -a * -b == a * b == b * a
  {
  }
}
