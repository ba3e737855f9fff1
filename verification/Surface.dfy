/** Surfaces and single pixels (src/graphics/graphics.c:45-53, 385-397). */
module Surface {
  import opened Arithmetic

  type Color = c: int | 0 <= c < 0x10000

  datatype Point = Point(x: int, y: int)
  datatype Rectangle = Rectangle(x: int, y: int, width: int, height: int)

  /** The size and the clipping rectangle of a surface. */
  datatype Frame = Frame(width: nat, height: nat, clip: Rectangle) {
    /** graphics_set_pixel writes this point: on the surface and in the clip. */
    predicate Shows(p: Point) {
      && 0 <= p.x < width && 0 <= p.y < height
      && clip.x <= p.x < clip.x + clip.width && clip.y <= p.y < clip.y + clip.height
    }

    function Index(x: int, y: int): int {
      y * width + x
    }
  }

  lemma IndexInBounds(f: Frame, x: int, y: int)
    requires 0 <= x < f.width && 0 <= y < f.height
    ensures 0 <= f.Index(x, y) < f.width * f.height
  {
    Rows(y + 1, f.width);
    if y + 1 < f.height {
      Multiple(y + 1, f.height, f.width);
    }
    assert y * f.width >= 0;
  }

  lemma IndexInjective(f: Frame, x: int, y: int, x': int, y': int)
    requires 0 <= x < f.width && 0 <= x' < f.width && f.Index(x, y) == f.Index(x', y')
    ensures x == x' && y == y'
  {
    if y < y' {
      Multiple(y, y', f.width);
    } else if y' < y {
      Multiple(y', y, f.width);
    }
  }

  /** The pixels after plotting one point. */
  function Plot(pixels: seq<Color>, f: Frame, p: Point, color: Color): (r: seq<Color>)
    requires f.width * f.height <= |pixels|
    ensures |r| == |pixels|
  {
    if f.Shows(p) then
      IndexInBounds(f, p.x, p.y);
      pixels[f.Index(p.x, p.y) := color]
    else pixels
  }

  function PlotAll(pixels: seq<Color>, f: Frame, points: seq<Point>, color: Color): (r: seq<Color>)
    requires f.width * f.height <= |pixels|
    ensures |r| == |pixels|
  {
    if points == [] then pixels
    else Plot(PlotAll(pixels, f, points[..|points| - 1], color), f, points[|points| - 1], color)
  }

  lemma PlotNothing(pixels: seq<Color>, f: Frame, points: seq<Point>, color: Color)
    requires f.width * f.height <= |pixels| && |points| == 0
    ensures PlotAll(pixels, f, points, color) == pixels
  {
  }

  lemma PlotOneMore(pixels: seq<Color>, f: Frame, points: seq<Point>, p: Point, color: Color)
    requires f.width * f.height <= |pixels|
    ensures PlotAll(pixels, f, points + [p], color) == Plot(PlotAll(pixels, f, points, color), f, p, color)
  {
    assert (points + [p])[..|points|] == points;
  }

  ghost predicate Hits(f: Frame, points: seq<Point>, k: int) {
    exists p :: p in points && f.Shows(p) && f.Index(p.x, p.y) == k
  }

  /** Plotting colours exactly the shown points, and nothing else changes. */
  lemma {:induction false} PlotAllExact(pixels: seq<Color>, f: Frame, points: seq<Point>, color: Color, k: nat)
    requires f.width * f.height <= |pixels| && k < |pixels|
    ensures PlotAll(pixels, f, points, color)[k] == if Hits(f, points, k) then color else pixels[k]
  {
    if points != [] {
      var front, p := points[..|points| - 1], points[|points| - 1];
      PlotAllExact(pixels, f, front, color, k);
      assert points == front + [p];
      assert Hits(f, points, k) <==> Hits(f, front, k) || (f.Shows(p) && f.Index(p.x, p.y) == k) by {
        assert forall q :: q in points <==> q in front || q == p;
      }
    }
  }

  /** In rows of pixels: the point at column x of row y is coloured exactly if it is plotted and
      in the clip. */
  lemma PlottedPixel(pixels: seq<Color>, f: Frame, points: seq<Point>, color: Color, x: nat, y: nat)
    requires f.width * f.height <= |pixels| && x < f.width && y < f.height
    ensures 0 <= y * f.width + x < |pixels|
    ensures var inClip := f.clip.x <= x < f.clip.x + f.clip.width && f.clip.y <= y < f.clip.y + f.clip.height;
            PlotAll(pixels, f, points, color)[y * f.width + x]
            == if inClip && Point(x, y) in points then color else pixels[y * f.width + x]
  {
    IndexInBounds(f, x, y);
    PlotAllExact(pixels, f, points, color, y * f.width + x);
    hide PlotAll;
    assert f.Index(x, y) == y * f.width + x;
    forall p | p in points && f.Shows(p) && f.Index(p.x, p.y) == f.Index(x, y)
      ensures p == Point(x, y)
    {
      IndexInjective(f, p.x, p.y, x, y);
    }
    assert f.Shows(Point(x, y)) && Point(x, y) in points ==> Hits(f, points, y * f.width + x);
  }

  class GraphicsSurface {
    const pixels: array<Color>
    const frame: Frame

    ghost predicate Valid() {
      frame.width * frame.height <= pixels.Length
    }

    constructor (buffer: array<Color>, f: Frame)
      requires f.width * f.height <= buffer.Length
      ensures Valid() && pixels == buffer && frame == f
    {
      pixels, frame := buffer, f;
    }

    /** _graphics_is_point_visible */
    predicate IsPointVisible(p: Point) {
      && p.x >= frame.clip.x
      && p.y >= frame.clip.y
      && p.x < frame.clip.x + frame.clip.width
      && p.y < frame.clip.y + frame.clip.height
    }

    /** graphics_set_pixel */
    method SetPixel(x: int, y: int, color: Color)
      requires Valid()
      modifies pixels
      ensures pixels[..] == Plot(old(pixels[..]), frame, Point(x, y), color)
      ensures var shown := 0 <= x < frame.width && 0 <= y < frame.height
                           && frame.clip.x <= x < frame.clip.x + frame.clip.width
                           && frame.clip.y <= y < frame.clip.y + frame.clip.height;
              && (shown ==> 0 <= y * frame.width + x < pixels.Length)
              && forall k | 0 <= k < pixels.Length ::
                   pixels[k] == if shown && k == y * frame.width + x then color else old(pixels[k])
    {
      if x < 0 || y < 0 || x >= frame.width || y >= frame.height {
        return;
      }
      if !IsPointVisible(Point(x, y)) {
        return;
      }
      IndexInBounds(frame, x, y);
      pixels[y * frame.width + x] := color;
    }
  }
}
