/** The midpoint circle: graphics_draw_circle (src/graphics/graphics.c:484-517). */
module Circle {
  import opened Surface

  /** The eight points the loop plots for one offset, in its order. */
  function Octants(c: Point, x: int, y: int): seq<Point> {
    [ Point(c.x + x, c.y + y), Point(c.x - x, c.y + y), Point(c.x + x, c.y - y), Point(c.x - x, c.y - y),
      Point(c.x + y, c.y + x), Point(c.x - y, c.y + x), Point(c.x + y, c.y - x), Point(c.x - y, c.y - x) ]
  }

  /** The variables of the loop when it plots. */
  datatype State = State(x: int, y: int, d: int)

  /** The states of the loop from one on, while it runs. */
  function States(s: State): seq<State>
    decreases s.y - s.x
  {
    if s.y < s.x then [] else [s] + States(Next(s))
  }

  /** One round of the loop */
  function Next(s: State): State {
    if s.d > 0 then State(s.x + 1, s.y - 1, s.d + 4 * (s.x + 1 - (s.y - 1)) + 10)
    else State(s.x + 1, s.y, s.d + 4 * (s.x + 1) + 6)
  }

  function First(radius: int): State {
    State(0, radius, 3 - 2 * radius)
  }

  /** The states of the loop for a whole circle. */
  function Visited(radius: int): seq<State> {
    States(First(radius))
  }

  function Reflected(c: Point, states: seq<State>): seq<Point> {
    if states == [] then [] else Octants(c, states[0].x, states[0].y) + Reflected(c, states[1..])
  }

  // ---------------------------------------------------------------- drawing

  method PlotOctants(surface: GraphicsSurface, c: Point, x: int, y: int, color: Color)
    requires surface.Valid()
    modifies surface.pixels
    ensures surface.pixels[..] == PlotAll(old(surface.pixels[..]), surface.frame, Octants(c, x, y), color)
  {
    hide Plot, PlotAll;
    surface.SetPixel(c.x + x, c.y + y, color);
    surface.SetPixel(c.x - x, c.y + y, color);
    surface.SetPixel(c.x + x, c.y - y, color);
    surface.SetPixel(c.x - x, c.y - y, color);
    surface.SetPixel(c.x + y, c.y + x, color);
    surface.SetPixel(c.x - y, c.y + x, color);
    surface.SetPixel(c.x + y, c.y - x, color);
    surface.SetPixel(c.x - y, c.y - x, color);
    PlotEight(old(surface.pixels[..]), surface.frame, Octants(c, x, y), color);
  }

  lemma PlotEight(pixels: seq<Color>, f: Frame, p: seq<Point>, color: Color)
    requires f.width * f.height <= |pixels| && |p| == 8
    ensures PlotAll(pixels, f, p, color)
         == Plot(Plot(Plot(Plot(Plot(Plot(Plot(Plot(pixels, f, p[0], color), f, p[1], color), f, p[2], color),
                 f, p[3], color), f, p[4], color), f, p[5], color), f, p[6], color), f, p[7], color)
  {
    hide Plot;
    assert p[..7][..6] == p[..6] && p[..6][..5] == p[..5] && p[..5][..4] == p[..4];
    assert p[..4][..3] == p[..3] && p[..3][..2] == p[..2] && p[..2][..1] == p[..1];
    PlotNothing(pixels, f, p[..0], color);
    PlotAllSteps(pixels, f, p, color);
  }

  lemma PlotAllSteps(pixels: seq<Color>, f: Frame, p: seq<Point>, color: Color)
    requires f.width * f.height <= |pixels|
    ensures forall k | 0 <= k < |p| ::
              PlotAll(pixels, f, p[..k + 1], color) == Plot(PlotAll(pixels, f, p[..k], color), f, p[k], color)
    ensures PlotAll(pixels, f, p[..|p|], color) == PlotAll(pixels, f, p, color)
  {
    forall k | 0 <= k < |p|
      ensures PlotAll(pixels, f, p[..k + 1], color) == Plot(PlotAll(pixels, f, p[..k], color), f, p[k], color)
    {
      assert p[..k + 1] == p[..k] + [p[k]];
      PlotOneMore(pixels, f, p[..k], p[k], color);
    }
    assert p[..|p|] == p;
  }

  /** graphics_draw_circle */
  method DrawCircle(surface: GraphicsSurface, center: Point, radius: int, color: Color)
    requires surface.Valid()
    modifies surface.pixels
    ensures surface.pixels[..] == PlotAll(old(surface.pixels[..]), surface.frame,
                                          Reflected(center, Visited(radius)), color)
  {
    var x, y, d := 0, radius, 3 - 2 * radius;
    ghost var pixels, done: seq<Point> := surface.pixels[..], [];
    assert done + Reflected(center, Visited(radius)) == Reflected(center, Visited(radius));
    hide PlotAll, Plot, Octants, States, Reflected, Next;
    PlotNothing(pixels, surface.frame, done, color);
    while y >= x
      invariant surface.pixels[..] == PlotAll(pixels, surface.frame, done, color)
      invariant done + Reflected(center, States(State(x, y, d))) == Reflected(center, Visited(radius))
      decreases y - x
    {
      ghost var s := State(x, y, d);
      PlotAllJoined(pixels, surface.frame, done, Octants(center, x, y), color);
      PlotOctants(surface, center, x, y, color);
      OneStateMore(center, s, done);
      NextIs(s);
      done := done + Octants(center, x, y);
      x := x + 1;
      if d > 0 {
        y := y - 1;
        d := d + 4 * (x - y) + 10;
      } else {
        d := d + 4 * x + 6;
      }
      assert State(x, y, d) == Next(s);
    }
    NoState(center, State(x, y, d), done);
  }

  lemma NextIs(s: State)
    ensures Next(s).x == s.x + 1
    ensures s.d > 0 ==> Next(s).y == s.y - 1 && Next(s).d == s.d + 4 * (Next(s).x - Next(s).y) + 10
    ensures s.d <= 0 ==> Next(s).y == s.y && Next(s).d == s.d + 4 * Next(s).x + 6
  {
  }

  lemma OneStateMore(c: Point, s: State, done: seq<Point>)
    requires s.y >= s.x
    ensures done + Reflected(c, States(s)) == done + Octants(c, s.x, s.y) + Reflected(c, States(Next(s)))
  {
    hide Octants, Next;
    var rest := States(Next(s));
    assert States(s) == [s] + rest && ([s] + rest)[1..] == rest;
    assert done + (Octants(c, s.x, s.y) + Reflected(c, rest)) == done + Octants(c, s.x, s.y) + Reflected(c, rest);
  }

  lemma NoState(c: Point, s: State, done: seq<Point>)
    requires s.y < s.x
    ensures done + Reflected(c, States(s)) == done
  {
    assert done + [] == done;
  }

  lemma {:induction false} PlotAllJoined(pixels: seq<Color>, f: Frame, a: seq<Point>, b: seq<Point>, color: Color)
    requires f.width * f.height <= |pixels|
    ensures PlotAll(PlotAll(pixels, f, a, color), f, b, color) == PlotAll(pixels, f, a + b, color)
  {
    if b == [] {
      assert a + b == a;
    } else {
      var front, p := b[..|b| - 1], b[|b| - 1];
      PlotAllJoined(pixels, f, a, front, color);
      assert a + b == a + front + [p];
      PlotOneMore(pixels, f, a + front, p, color);
    }
  }

  // --------------------------------------------------------------- geometry

  /** x*x + y*y - r*r, zero on the ideal circle */
  function Excess(r: int, x: int, y: int): int {
    x * x + y * y - r * r
  }

  /** The decision variable in closed form, and what it bounds. */
  ghost predicate InStep(r: int, s: State) {
    && 0 <= s.x && s.y <= r
    && s.d == 2 * Excess(r, s.x, s.y) + 8 * s.x - 6 * s.y + 4 * r + 3
    && -3 * r <= Excess(r, s.x, s.y) <= r
    && s.d <= 4 * s.x + 12
    && (s.y - s.x == 1 ==> s.d <= 4 * s.x + 8)
    && (s.y - s.x >= 2 ==> s.d <= 4 * s.x + 6)
  }

  lemma Square(n: int)
    ensures (n + 1) * (n + 1) == n * n + 2 * n + 1
  {
  }

  lemma ExcessSteps(r: int, x: int, y: int)
    ensures Excess(r, x + 1, y) == Excess(r, x, y) + 2 * x + 1
    ensures Excess(r, x + 1, y - 1) == Excess(r, x, y) + 2 * x + 1 - 2 * y + 1
  {
    Square(x);
    Square(y - 1);
  }

  lemma FirstInStep(r: int)
    requires r >= 0
    ensures InStep(r, First(r))
  {
  }

  lemma NextInStep(r: int, s: State)
    requires InStep(r, s) && s.x <= s.y && Next(s).x <= Next(s).y
    ensures InStep(r, Next(s))
  {
    hide Excess;
    ExcessSteps(r, s.x, s.y);
  }

  /** The states the loop visits, one by one */
  lemma {:induction false} StatesInStep(r: int, s: State, t: State)
    requires InStep(r, s) && t in States(s)
    ensures InStep(r, t) && t.x <= t.y
    decreases s.y - s.x
  {
    hide InStep;
    assert States(s) == [s] + States(Next(s));
    if t != s {
      assert t in States(Next(s)) && Next(s).x <= Next(s).y;
      NextInStep(r, s);
      StatesInStep(r, Next(s), t);
    }
  }

  lemma VisitedInStep(r: int, s: State)
    requires r >= 0 && s in Visited(r)
    ensures InStep(r, s) && s.x <= s.y
  {
    hide InStep, States;
    FirstInStep(r);
    StatesInStep(r, First(r), s);
  }

  /** The loop updates x and y before it uses them, so at every iteration d has drifted by
      4x + 4(r - y) from the classical decision variable 2(x+1)^2 + y^2 + (y-1)^2 - 2r^2. */
  lemma DecisionDrifts(r: int, s: State)
    requires r >= 0 && s in Visited(r)
    ensures s.d == 2 * ((s.x + 1) * (s.x + 1)) + s.y * s.y + (s.y - 1) * (s.y - 1) - 2 * (r * r)
                   + 4 * s.x + 4 * (r - s.y)
  {
    VisitedInStep(r, s);
    hide Visited;
    Square(s.x);
    Square(s.y - 1);
  }

  /** Every plotted offset is in the first octant, and its distance from the ideal circle
      is bounded linearly in the radius. */
  lemma OffsetsNearCircle(r: int, s: State)
    requires r >= 0 && s in Visited(r)
    ensures 0 <= s.x <= s.y <= r && -3 * r <= s.x * s.x + s.y * s.y - r * r <= r
  {
    VisitedInStep(r, s);
  }

  /** From one iteration to the next x grows by one and y - x strictly decreases. */
  lemma {:induction false} StatesClose(s: State, k: nat)
    requires k + 1 < |States(s)|
    ensures States(s)[k + 1] == Next(States(s)[k])
    ensures var t, t' := States(s)[k], States(s)[k + 1]; t'.x == t.x + 1 && t'.y - t'.x < t.y - t.x
    decreases k
  {
    assert States(s) == [s] + States(Next(s));
    hide Next;
    NextIs(s);
    if k > 0 {
      StatesClose(Next(s), k - 1);
    } else {
      assert States(Next(s))[0] == Next(s);
    }
  }

  // --------------------------------------------------------------- accuracy

  /** The point is within half a pixel of the ideal circle: (r - 1/2)^2 < x^2 + y^2 < (r + 1/2)^2. */
  predicate HalfPixel(r: int, x: int, y: int) {
    Excess(r, x, y) <= r && (Excess(r, x, y) > -r || r == 0)
  }

  /** So is every point the loop visits from a state on ... */
  ghost predicate HitsFrom(r: int, s: State) {
    forall t | t in States(s) :: HalfPixel(r, t.x, t.y)
  }

  /** ... and every point of a whole circle. */
  ghost predicate AllHalfPixel(r: int) {
    HitsFrom(r, First(r))
  }

  /** The last visited offset is next to the diagonal, and already too far inside. */
  lemma {:induction false} LastOffset(r: int, s: State) returns (t: State)
    requires InStep(r, s) && s.x <= s.y
    ensures States(s) != [] && t == States(s)[|States(s)| - 1] && t in States(s) && 0 <= t.x <= t.y <= t.x + 1
    ensures 2 * Excess(r, t.x, t.y) <= 2 * t.x - 4 * r + 11
    ensures Excess(r, t.x, t.y) <= r
    decreases s.y - s.x
  {
    assert States(s) == [s] + States(Next(s));
    if Next(s).x <= Next(s).y {
      NextInStep(r, s);
      hide InStep, States, Excess;
      t := LastOffset(r, Next(s));
    } else {
      LastIsInside(r, s);
      t := s;
    }
  }

  lemma LastIsInside(r: int, s: State)
    requires InStep(r, s) && s.x <= s.y && Next(s).y < Next(s).x
    ensures s.y <= s.x + 1 && 2 * Excess(r, s.x, s.y) <= 2 * s.x - 4 * r + 11
  {
    hide Excess;
  }

  /** Next to the diagonal the first coordinate is well below the radius. */
  lemma DiagonalBelowRadius(r: int, x: int, y: int)
    requires r >= 19 && 0 <= x <= y && Excess(r, x, y) <= r
    ensures x <= r - 6
  {
    var e := r - 5;
    SquareMonotone(x, y);
    if x >= e {
      SquareMonotone(e, x);
      RadiusBound(r);
    }
  }

  lemma RadiusBound(r: int)
    requires r >= 19
    ensures 2 * ((r - 5) * (r - 5)) > r * r + r
  {
    assert (r - 5) * (r - 5) == r * r - 10 * r + 25;
    SquareAtLeast(r);
  }

  lemma SquareAtLeast(r: int)
    requires r >= 19
    ensures r * r >= 19 * r
  {
  }

  lemma SquareMonotone(a: int, b: int)
    requires 0 <= a <= b
    ensures a * a <= b * b
  {
    assert b * b - a * a == (b - a) * (b + a);
  }

  lemma LargeCircleMisses(r: int)
    requires r >= 19
    ensures !AllHalfPixel(r)
  {
    FirstInStep(r);
    var t := LastOffset(r, First(r));
    DiagonalBelowRadius(r, t.x, t.y);
    MissesAt(r, t);
  }

  lemma MissesAt(r: int, s: State)
    requires s in Visited(r) && !HalfPixel(r, s.x, s.y)
    ensures !AllHalfPixel(r)
  {
  }

  /** HitsFrom, computed by walking the loop */
  function Hits(r: int, x: int, y: int, d: int): bool
    decreases y - x
  {
    y < x
    || (HalfPixel(r, x, y)
        && if d > 0 then Hits(r, x + 1, y - 1, d + 4 * (x + 1 - (y - 1)) + 10)
           else Hits(r, x + 1, y, d + 4 * (x + 1) + 6))
  }

  lemma {:induction false} HitsWalked(r: int, s: State)
    ensures Hits(r, s.x, s.y, s.d) <==> HitsFrom(r, s)
    decreases s.y - s.x
  {
    hide HalfPixel;
    if s.x <= s.y {
      assert States(s) == [s] + States(Next(s));
      HitsWalked(r, Next(s));
      assert s in States(s);
    }
  }

  lemma Walked(r: int, d: int, hits: bool)
    requires d == 3 - 2 * r && Hits(r, 0, r, d) == hits
    ensures AllHalfPixel(r) == hits
  {
    hide Hits, HitsFrom;
    HitsWalked(r, First(r));
  }

  /** The first of these circles are within half a pixel, and the others are not. */
  lemma SmallCircles(r: int)
    requires 0 <= r <= 18
    ensures AllHalfPixel(r) <==> r <= 4
  {
    hide AllHalfPixel;
    match r
    case 0 => Walked(0, 3, true);
    case 1 => Walked(1, 1, true);
    case 2 => Walked(2, -1, true);
    case 3 => Walked(3, -3, true);
    case 4 => Walked(4, -5, true);
    case 5 => Walked(5, -7, false);
    case 6 => Walked(6, -9, false);
    case 7 => Walked(7, -11, false);
    case 8 => Walked(8, -13, false);
    case 9 => Walked(9, -15, false);
    case 10 => Walked(10, -17, false);
    case 11 => Walked(11, -19, false);
    case 12 => Walked(12, -21, false);
    case 13 => Walked(13, -23, false);
    case 14 => Walked(14, -25, false);
    case 15 => Walked(15, -27, false);
    case 16 => Walked(16, -29, false);
    case 17 => Walked(17, -31, false);
    case _ => Walked(18, -33, false);
  }

  /** The circle keeps a midpoint circle's promise of half a pixel for radii up to 4 only. */
  lemma HalfPixelIffSmall(r: int)
    ensures AllHalfPixel(r) <==> r <= 4
  {
    hide AllHalfPixel;
    if r < 0 {
      NegativeCircle(r);
    } else if r <= 18 {
      SmallCircles(r);
    } else {
      LargeCircleMisses(r);
    }
  }

  lemma NegativeCircle(r: int)
    requires r < 0
    ensures AllHalfPixel(r)
  {
  }

  // --------------------------------------------------------------- symmetry

  /** The mirror images of a point in the vertical, the horizontal and the diagonal through c. */
  ghost predicate ImagesIn(c: Point, p: Point, s: seq<Point>) {
    var dx, dy := p.x - c.x, p.y - c.y;
    && Point(c.x - dx, c.y + dy) in s
    && Point(c.x + dx, c.y - dy) in s
    && Point(c.x + dy, c.y + dx) in s
  }

  ghost predicate OctantSymmetric(c: Point, s: seq<Point>) {
    forall p {:trigger ImagesIn(c, p, s)} | p in s :: ImagesIn(c, p, s)
  }

  /** Before clipping, the plotted points are invariant under the reflections that
      generate all eight octants. */
  lemma {:induction false} CircleSymmetric(c: Point, states: seq<State>)
    ensures OctantSymmetric(c, Reflected(c, states))
  {
    if states != [] {
      var a, b := Octants(c, states[0].x, states[0].y), Reflected(c, states[1..]);
      OctantsSymmetric(c, states[0].x, states[0].y);
      CircleSymmetric(c, states[1..]);
      hide Octants;
      forall p | p in a + b
        ensures ImagesIn(c, p, a + b)
      {
        assert p in a ==> ImagesIn(c, p, a);
        assert p in b ==> ImagesIn(c, p, b);
      }
    }
  }

  predicate IsOctant(dx: int, dy: int, x: int, y: int) {
    || ((dx == x || dx == -x) && (dy == y || dy == -y))
    || ((dx == y || dx == -y) && (dy == x || dy == -x))
  }

  lemma OctantsAre(c: Point, x: int, y: int, p: Point)
    ensures p in Octants(c, x, y) <==> IsOctant(p.x - c.x, p.y - c.y, x, y)
  {
    var s := Octants(c, x, y);
    assert p in s <==> p == s[0] || p == s[1] || p == s[2] || p == s[3]
                       || p == s[4] || p == s[5] || p == s[6] || p == s[7];
  }

  lemma OctantsSymmetric(c: Point, x: int, y: int)
    ensures OctantSymmetric(c, Octants(c, x, y))
  {
    hide Octants;
    forall p | p in Octants(c, x, y)
      ensures ImagesIn(c, p, Octants(c, x, y))
    {
      var dx, dy := p.x - c.x, p.y - c.y;
      OctantsAre(c, x, y, p);
      OctantsAre(c, x, y, Point(c.x - dx, c.y + dy));
      OctantsAre(c, x, y, Point(c.x + dx, c.y - dy));
      OctantsAre(c, x, y, Point(c.x + dy, c.y + dx));
    }
  }

  // ---------------------------------------------------------- plotted points

  lemma {:induction false} ReflectedOf(c: Point, states: seq<State>, p: Point)
    ensures p in Reflected(c, states) <==> exists s :: s in states && p in Octants(c, s.x, s.y)
  {
    hide Octants;
    if states != [] {
      ReflectedOf(c, states[1..], p);
      assert states == [states[0]] + states[1..];
    }
  }

  lemma OctantDistance(c: Point, x: int, y: int, p: Point)
    requires p in Octants(c, x, y)
    ensures (p.x - c.x) * (p.x - c.x) + (p.y - c.y) * (p.y - c.y) == x * x + y * y
  {
    OctantsAre(c, x, y, p);
    hide Octants;
    var dx, dy := p.x - c.x, p.y - c.y;
    SameSquare(dx, x);
    SameSquare(dx, y);
    SameSquare(dy, x);
    SameSquare(dy, y);
  }

  lemma SameSquare(a: int, b: int)
    ensures a == b || a == -b ==> a * a == b * b
  {
  }

  /** Every point that is plotted is near the circle around c: its squared distance is at most
      3r too small and r too large. */
  lemma PlottedNearCircle(c: Point, r: nat, p: Point)
    requires p in Reflected(c, Visited(r))
    ensures var dx, dy := p.x - c.x, p.y - c.y; -3 * r <= dx * dx + dy * dy - r * r <= r
  {
    ReflectedOf(c, Visited(r), p);
    hide Octants, Visited, Reflected;
    var s :| s in Visited(r) && p in Octants(c, s.x, s.y);
    OffsetsNearCircle(r, s);
    OctantDistance(c, s.x, s.y, p);
  }

  /** The four points straight above, below, left and right of the centre are plotted. */
  lemma PolesPlotted(c: Point, r: nat)
    ensures Point(c.x, c.y + r) in Reflected(c, Visited(r)) && Point(c.x, c.y - r) in Reflected(c, Visited(r))
    ensures Point(c.x + r, c.y) in Reflected(c, Visited(r)) && Point(c.x - r, c.y) in Reflected(c, Visited(r))
  {
    FirstVisited(r);
    hide Visited, Reflected, States;
    PolePlotted(c, r, Point(c.x, c.y + r));
    PolePlotted(c, r, Point(c.x, c.y - r));
    PolePlotted(c, r, Point(c.x + r, c.y));
    PolePlotted(c, r, Point(c.x - r, c.y));
  }

  lemma PolePlotted(c: Point, r: nat, p: Point)
    requires State(0, r, 3 - 2 * r) in Visited(r) && IsOctant(p.x - c.x, p.y - c.y, 0, r)
    ensures p in Reflected(c, Visited(r))
  {
    hide Visited, Reflected, States, Octants;
    var s := State(0, r, 3 - 2 * r);
    OctantsAre(c, s.x, s.y, p);
    ReflectedOf(c, Visited(r), p);
  }

  lemma FirstVisited(r: nat)
    ensures State(0, r, 3 - 2 * r) in Visited(r)
  {
    assert States(First(r)) == [First(r)] + States(Next(First(r)));
  }
}
