/** Copying rectangles between surfaces: graphics_blit_surface and graphics_blit_alpha
    (src/graphics/graphics.c:537-566 and 603-630). */
module Blit {
  import opened Arithmetic
  import opened Surface

  type Channel = b: int | 0 <= b < 256

  /** graphics_color_to_rgb: RGB565 spread over eight bits, the top bits repeated below. */
  function Red(c: Color): Channel { c / 0x800 * 8 + c / 0x800 / 4 }
  function Green(c: Color): Channel { c / 0x20 % 0x40 * 4 + c / 0x20 % 0x40 / 16 }
  function Blue(c: Color): Channel { c % 0x20 * 8 + c % 0x20 / 4 }

  /** graphics_rgb_to_color */
  function FromRgb(r: Channel, g: Channel, b: Channel): Color {
    r / 8 * 0x800 + g / 4 * 0x20 + b / 8
  }

  function Mix(s: Channel, d: Channel, alpha: Channel): Channel {
    MixBound(s, d, alpha);
    (s * alpha + d * (255 - alpha)) / 256
  }

  /** A mixed channel lies between the two, up to one step of rounding. */
  lemma MixBetween(s: Channel, d: Channel, alpha: Channel)
    ensures Mix(s, d, alpha) <= (if s <= d then d else s)
    ensures Mix(s, d, alpha) >= (if s <= d then s else d) - 1
  {
    var low, high: Channel := if s <= d then s else d, if s <= d then d else s;
    Scaled(low, s, alpha);
    Scaled(low, d, 255 - alpha);
    Scaled(s, high, alpha);
    Scaled(d, high, 255 - alpha);
    SumOfRows(alpha, 255 - alpha, low);
    SumOfRows(alpha, 255 - alpha, high);
    MixBound(s, d, alpha);
  }

  lemma Scaled(a: Channel, b: Channel, weight: Channel)
    requires a <= b
    ensures a * weight <= b * weight && weight * a == a * weight && weight * b == b * weight
  {
    SumOfRows(a, b - a, weight);
    Product(b - a, weight);
  }

  /** It does not decrease with either of them ... */
  lemma MixMonotone(s: Channel, s': Channel, d: Channel, d': Channel, alpha: Channel)
    requires s <= s' && d <= d'
    ensures Mix(s, d, alpha) <= Mix(s', d', alpha)
  {
    MixBound(s, d, alpha);
    MixBound(s', d', alpha);
    Scaled(s, s', alpha);
    Scaled(d, d', 255 - alpha);
  }

  /** ... and with the opacity it moves from the destination towards the source. */
  lemma MixMoves(s: Channel, d: Channel, alpha: Channel, alpha': Channel)
    requires alpha <= alpha'
    ensures if d <= s then Mix(s, d, alpha) <= Mix(s, d, alpha') else Mix(s, d, alpha') <= Mix(s, d, alpha)
  {
    MixBound(s, d, alpha);
    MixBound(s, d, alpha');
    var more := alpha' - alpha;
    assert s * alpha' == s * alpha + s * more by { Split(s, alpha, more); }
    assert d * (255 - alpha) == d * (255 - alpha') + d * more by { Split(d, 255 - alpha', more); }
    if d <= s {
      Scaled(d, s, more);
      Shrinks(s * alpha + d * (255 - alpha), s * alpha' + d * (255 - alpha'));
    } else {
      Scaled(s, d, more);
      Shrinks(s * alpha' + d * (255 - alpha'), s * alpha + d * (255 - alpha));
    }
  }

  lemma Split(c: int, a: int, b: int)
    ensures c * (a + b) == c * a + c * b
  {
  }

  lemma Shrinks(a: nat, b: nat)
    requires a <= b
    ensures a / 256 <= b / 256
  {
  }

  /** Almost opaque it is the source up to two steps, and almost clear the destination. */
  lemma MixEnds(s: Channel, d: Channel)
    ensures s - 2 <= Mix(s, d, 254) <= s + 1 && d - 2 <= Mix(s, d, 1) <= d + 1
  {
  }

  /** Mixed with itself, a channel that is not zero loses one step ... */
  lemma MixSame(c: Channel, alpha: Channel)
    ensures Mix(c, c, alpha) == if c == 0 then 0 else c - 1
  {
    assert c * alpha + c * (255 - alpha) == c * 255 by { Split(c, alpha, 255 - alpha); }
  }

  /** ... so that a color is not kept exactly if its red or blue is from 1 to 3 or its green from 1 to 15. */
  lemma BlendSameIff(c: Color, alpha: Channel)
    requires 0 < alpha < 255
    ensures Blend(c, c, alpha) == c
       <==> !(1 <= c / 0x800 <= 3 || 1 <= c / 0x20 % 0x40 <= 15 || 1 <= c % 0x20 <= 3)
  {
    MixedFields(c, alpha);
    var r, g, b := c / 0x800, c / 0x20 % 0x40, c % 0x20;
    assert c / 0x20 / 0x40 == r && c == (r * 0x40 + g) * 0x20 + b;
    hide Mix, Red, Green, Blue;
    var r' := Mix(Red(c), Red(c), alpha) / 8;
    var g' := Mix(Green(c), Green(c), alpha) / 4;
    var b' := Mix(Blue(c), Blue(c), alpha) / 8;
    assert Blend(c, c, alpha) == r' * 0x800 + g' * 0x20 + b';
    SameFields(r, g, b, r', g', b');
  }

  lemma MixedFields(c: Color, alpha: Channel)
    ensures Mix(Red(c), Red(c), alpha) / 8 == var r := c / 0x800; if 1 <= r < 4 then r - 1 else r
    ensures Mix(Green(c), Green(c), alpha) / 4 == var g := c / 0x20 % 0x40; if 1 <= g < 16 then g - 1 else g
    ensures Mix(Blue(c), Blue(c), alpha) / 8 == var b := c % 0x20; if 1 <= b < 4 then b - 1 else b
  {
    MixSame(Red(c), alpha);
    MixSame(Green(c), alpha);
    MixSame(Blue(c), alpha);
    hide Mix;
    LessOne(c / 0x800, 4, 8);
    LessOne(c / 0x20 % 0x40, 16, 4);
    LessOne(c % 0x20, 4, 8);
  }

  lemma SameFields(r: int, g: int, b: int, r': int, g': int, b': int)
    requires 0 <= g < 64 && 0 <= g' < 64 && 0 <= b < 32 && 0 <= b' < 32
    ensures r' * 0x800 + g' * 0x20 + b' == r * 0x800 + g * 0x20 + b <==> r' == r && g' == g && b' == b
  {
  }

  /** A field spread over its byte and made one less */
  lemma LessOne(v: nat, q: nat, m: nat)
    requires (q == 4 && m == 8 && v < 32) || (q == 16 && m == 4 && v < 64)
    ensures var c := v * m + v / q;
            (if c == 0 then 0 else c - 1) / m == if 1 <= v < q then v - 1 else v
  {
  }

  /** A color is made of its channels: five, six and five bits, the upper ones repeated below. */
  lemma ChannelsRoundTrip(c: Color)
    ensures FromRgb(Red(c), Green(c), Blue(c)) == c
    ensures Red(c) / 8 == c / 0x800 && Green(c) / 4 == c / 0x20 % 0x40 && Blue(c) / 8 == c % 0x20
    ensures Red(c) % 8 == Red(c) / 32 && Green(c) % 4 == Green(c) / 64 && Blue(c) % 8 == Blue(c) / 32
  {
    var r, g, b := c / 0x800, c / 0x20 % 0x40, c % 0x20;
    Quotient(r * 8 + r / 4, 8, r, r / 4);
    Quotient(g * 4 + g / 16, 4, g, g / 16);
    Quotient(b * 8 + b / 4, 8, b, b / 4);
    assert c / 0x20 / 0x40 == r;
    assert c == (r * 0x40 + g) * 0x20 + b;
  }

  lemma MixBound(s: Channel, d: Channel, alpha: Channel)
    ensures 0 <= s * alpha + d * (255 - alpha) <= 255 * 255
  {
    Weighted(s, alpha);
    Weighted(d, 255 - alpha);
  }

  lemma Weighted(c: Channel, weight: Channel)
    ensures 0 <= c * weight <= 255 * weight
  {
    Product(c, weight);
    Product(255 - c, weight);
    Distribute(255 - c, c, weight);
  }

  /** graphics_blend_colors */
  function Blend(src: Color, dst: Color, alpha: Channel): Color {
    if alpha == 255 then src
    else if alpha == 0 then dst
    else FromRgb(Mix(Red(src), Red(dst), alpha), Mix(Green(src), Green(dst), alpha), Mix(Blue(src), Blue(dst), alpha))
  }

  /** The pixel at (x, y) */
  function At(pixels: seq<Color>, f: Frame, x: int, y: int): Color
    requires f.width * f.height <= |pixels| && 0 <= x < f.width && 0 <= y < f.height
  {
    IndexInBounds(f, x, y);
    pixels[f.Index(x, y)]
  }

  lemma AtAfterSet(pixels: seq<Color>, f: Frame, x: int, y: int, c: Color, x': int, y': int)
    requires f.width * f.height <= |pixels| && 0 <= x < f.width && 0 <= y < f.height
    requires 0 <= x' < f.width && 0 <= y' < f.height
    ensures 0 <= f.Index(x, y) < |pixels|
    ensures At(pixels[f.Index(x, y) := c], f, x', y') == if x' == x && y' == y then c else At(pixels, f, x', y')
  {
    IndexInBounds(f, x, y);
    IndexInBounds(f, x', y');
    if f.Index(x, y) == f.Index(x', y') {
      IndexInjective(f, x, y, x', y');
    }
  }

  /** One copy: the frames, the source rectangle and the destination point. */
  datatype Copy = Copy(to: Frame, from: Frame, rect: Rectangle, at: Point) {
    /** Destination pixel (x, y) gets source pixel (SourceX(x), SourceY(y)), */
    function SourceX(x: int): int { rect.x + (x - at.x) }
    function SourceY(y: int): int { rect.y + (y - at.y) }

    /** if that pixel is in the rectangle and on the source surface. */
    predicate Reaches(x: int, y: int) {
      && rect.x <= SourceX(x) < rect.x + rect.width && 0 <= SourceX(x) < from.width
      && rect.y <= SourceY(y) < rect.y + rect.height && 0 <= SourceY(y) < from.height
    }

    /** The pixel (x, y) of the destination after the copy. */
    function Result(dst: seq<Color>, src: seq<Color>, alpha: Channel, x: int, y: int): Color
      requires to.width * to.height <= |dst| && from.width * from.height <= |src|
      requires 0 <= x < to.width && 0 <= y < to.height
    {
      if Reaches(x, y) then Blend(At(src, from, SourceX(x), SourceY(y)), At(dst, to, x, y), alpha)
      else At(dst, to, x, y)
    }
  }

  // ------------------------------------------------------------ the loops

  /** p is p0 with the copy done for every source pixel before (sx, sy) in row order. */
  ghost predicate Upto(c: Copy, p0: seq<Color>, p: seq<Color>, src: seq<Color>, alpha: Channel, sx: int, sy: int) {
    && |p| == |p0| && c.to.width * c.to.height <= |p0| && c.from.width * c.from.height <= |src|
    && (forall k | c.to.width * c.to.height <= k < |p| :: p[k] == p0[k])
    && forall x, y | 0 <= x < c.to.width && 0 <= y < c.to.height ::
         At(p, c.to, x, y) == if c.SourceY(y) < sy || (c.SourceY(y) == sy && c.SourceX(x) < sx)
                              then c.Result(p0, src, alpha, x, y) else At(p0, c.to, x, y)
  }

  /** The whole copy, pixel by pixel. */
  ghost predicate Copied(c: Copy, p0: seq<Color>, p: seq<Color>, src: seq<Color>, alpha: Channel) {
    && |p| == |p0| && c.to.width * c.to.height <= |p0| && c.from.width * c.from.height <= |src|
    && (forall k | c.to.width * c.to.height <= k < |p| :: p[k] == p0[k])
    && forall x, y | 0 <= x < c.to.width && 0 <= y < c.to.height ::
         At(p, c.to, x, y) == c.Result(p0, src, alpha, x, y)
  }

  predicate OnSurface(f: Frame, x: int, y: int) {
    0 <= x < f.width && 0 <= y < f.height
  }

  lemma CopyStart(c: Copy, p0: seq<Color>, src: seq<Color>, alpha: Channel, sx: int, sy: int)
    requires c.to.width * c.to.height <= |p0| && c.from.width * c.from.height <= |src|
    requires forall x, y | c.Reaches(x, y) :: sx <= c.SourceX(x) && sy <= c.SourceY(y)
    ensures Upto(c, p0, p0, src, alpha, sx, sy)
  {
  }

  /** One source pixel of the rectangle, drawn if it and its target are on their surfaces. */
  lemma CopyPixel(c: Copy, p0: seq<Color>, p: seq<Color>, p': seq<Color>, src: seq<Color>, alpha: Channel,
                  sx: int, sy: int)
    requires Upto(c, p0, p, src, alpha, sx, sy)
    requires c.rect.x <= sx < c.rect.x + c.rect.width && c.rect.y <= sy < c.rect.y + c.rect.height
    requires var dx, dy := c.at.x + (sx - c.rect.x), c.at.y + (sy - c.rect.y);
             if OnSurface(c.from, sx, sy) && OnSurface(c.to, dx, dy) then
               0 <= c.to.Index(dx, dy) < |p|
               && p' == p[c.to.Index(dx, dy) := Blend(At(src, c.from, sx, sy), At(p, c.to, dx, dy), alpha)]
             else p' == p
    ensures Upto(c, p0, p', src, alpha, sx + 1, sy)
  {
    hide At, Blend;
    var dx, dy := c.at.x + (sx - c.rect.x), c.at.y + (sy - c.rect.y);
    if OnSurface(c.from, sx, sy) && OnSurface(c.to, dx, dy) {
      IndexInBounds(c.to, dx, dy);
      forall x, y | 0 <= x < c.to.width && 0 <= y < c.to.height
        ensures At(p', c.to, x, y) == if x == dx && y == dy
                                      then Blend(At(src, c.from, sx, sy), At(p, c.to, dx, dy), alpha)
                                      else At(p, c.to, x, y)
      {
        AtAfterSet(p, c.to, dx, dy, Blend(At(src, c.from, sx, sy), At(p, c.to, dx, dy), alpha), x, y);
      }
    }
  }

  lemma CopyRowDone(c: Copy, p0: seq<Color>, p: seq<Color>, src: seq<Color>, alpha: Channel,
                    sx: int, sy: int, sx': int)
    requires Upto(c, p0, p, src, alpha, sx, sy)
    requires forall x, y | c.Reaches(x, y) && OnSurface(c.to, x, y) && c.SourceY(y) == sy :: c.SourceX(x) < sx
    requires forall x, y | c.Reaches(x, y) :: sx' <= c.SourceX(x)
    ensures Upto(c, p0, p, src, alpha, sx', sy + 1)
  {
    hide At, Blend;
  }

  lemma CopyDone(c: Copy, p0: seq<Color>, p: seq<Color>, src: seq<Color>, alpha: Channel, sx: int, sy: int)
    requires Upto(c, p0, p, src, alpha, sx, sy)
    requires forall x, y | c.Reaches(x, y) :: c.SourceY(y) < sy
    ensures Copied(c, p0, p, src, alpha)
  {
    hide At, Blend;
  }

  /** src_rect, which may be null */
  datatype SourceRect = Whole | Part(rect: Rectangle)

  function CopyOf(dest: Frame, src: Frame, srcRect: SourceRect, at: Point): Copy {
    Copy(dest, src, if srcRect.Part? then srcRect.rect else Rectangle(0, 0, src.width, src.height), at)
  }

  /** One row of graphics_blit_surface */
  method BlitRow(dest: GraphicsSurface, src: GraphicsSurface, c: Copy, xStart: int, xEnd: int, sy: int,
                 ghost p0: seq<Color>)
    requires dest.Valid() && src.Valid() && dest.pixels != src.pixels
    requires c.to == dest.frame && c.from == src.frame
    requires xStart == (if c.rect.x < 0 then 0 else c.rect.x)
    requires xEnd == if c.rect.x + c.rect.width > c.from.width then c.from.width else c.rect.x + c.rect.width
    requires c.rect.y <= sy < c.rect.y + c.rect.height && 0 <= sy < c.from.height
    requires 0 <= c.at.y + (sy - c.rect.y) < c.to.height
    requires Upto(c, p0, dest.pixels[..], src.pixels[..], 255, xStart, sy)
    modifies dest.pixels
    ensures Upto(c, p0, dest.pixels[..], src.pixels[..], 255, xStart, sy + 1)
  {
    hide Upto;
    var dy := c.at.y + (sy - c.rect.y);
    ghost var s := src.pixels[..];
    var sx := xStart;
    while sx < xEnd
      invariant xStart <= sx && (sx <= xEnd || sx == xStart)
      invariant Upto(c, p0, dest.pixels[..], s, 255, sx, sy)
    {
      ghost var p := dest.pixels[..];
      var dx := c.at.x + (sx - c.rect.x);
      if dx < 0 || dx >= c.to.width {
        CopyPixel(c, p0, p, p, s, 255, sx, sy);
        sx := sx + 1;
        continue;
      }
      IndexInBounds(c.from, sx, sy);
      IndexInBounds(c.to, dx, dy);
      var pixel := src.pixels[sy * c.from.width + sx];
      dest.pixels[dy * c.to.width + dx] := pixel;
      CopyPixel(c, p0, p, dest.pixels[..], s, 255, sx, sy);
      sx := sx + 1;
    }
    CopyRowDone(c, p0, dest.pixels[..], s, 255, sx, sy, xStart);
  }

  /** graphics_blit_surface */
  method BlitSurface(dest: GraphicsSurface, src: GraphicsSurface, srcRect: SourceRect, destPoint: Point)
    requires dest.Valid() && src.Valid() && dest.pixels != src.pixels
    modifies dest.pixels
    ensures Copied(CopyOf(dest.frame, src.frame, srcRect, destPoint),
                   old(dest.pixels[..]), dest.pixels[..], src.pixels[..], 255)
  {
    var c := CopyOf(dest.frame, src.frame, srcRect, destPoint);
    var source := c.rect;
    var srcXStart := if source.x < 0 then 0 else source.x;
    var srcYStart := if source.y < 0 then 0 else source.y;
    var srcXEnd := if source.x + source.width > src.frame.width then src.frame.width else source.x + source.width;
    var srcYEnd := if source.y + source.height > src.frame.height then src.frame.height else source.y + source.height;
    ghost var p0, s := dest.pixels[..], src.pixels[..];
    CopyStart(c, p0, s, 255, srcXStart, srcYStart);
    hide Upto;
    var srcY := srcYStart;
    while srcY < srcYEnd
      invariant srcYStart <= srcY && (srcY <= srcYEnd || srcY == srcYStart)
      invariant Upto(c, p0, dest.pixels[..], s, 255, srcXStart, srcY)
    {
      var dstY := destPoint.y + (srcY - source.y);
      if dstY < 0 || dstY >= dest.frame.height {
        CopyRowDone(c, p0, dest.pixels[..], s, 255, srcXStart, srcY, srcXStart);
        srcY := srcY + 1;
        continue;
      }
      BlitRow(dest, src, c, srcXStart, srcXEnd, srcY, p0);
      srcY := srcY + 1;
    }
    CopyDone(c, p0, dest.pixels[..], s, 255, srcXStart, srcY);
  }

  /** One row of graphics_blit_alpha */
  method BlitAlphaRow(dest: GraphicsSurface, src: GraphicsSurface, c: Copy, y: int, alpha: Channel,
                      ghost p0: seq<Color>)
    requires dest.Valid() && src.Valid() && dest.pixels != src.pixels
    requires c.to == dest.frame && c.from == src.frame && 0 <= y < c.rect.height
    requires Upto(c, p0, dest.pixels[..], src.pixels[..], alpha, c.rect.x, c.rect.y + y)
    modifies dest.pixels
    ensures Upto(c, p0, dest.pixels[..], src.pixels[..], alpha, c.rect.x, c.rect.y + y + 1)
  {
    hide Upto, Blend;
    ghost var s := src.pixels[..];
    var x := 0;
    while x < c.rect.width
      invariant 0 <= x && (x <= c.rect.width || x == 0)
      invariant Upto(c, p0, dest.pixels[..], s, alpha, c.rect.x + x, c.rect.y + y)
    {
      ghost var p := dest.pixels[..];
      var srcX, srcY := c.rect.x + x, c.rect.y + y;
      var dstX, dstY := c.at.x + x, c.at.y + y;
      if srcX >= 0 && srcX < src.frame.width && srcY >= 0 && srcY < src.frame.height &&
         dstX >= 0 && dstX < dest.frame.width && dstY >= 0 && dstY < dest.frame.height
      {
        IndexInBounds(c.from, srcX, srcY);
        IndexInBounds(c.to, dstX, dstY);
        var srcPixel := src.pixels[srcY * src.frame.width + srcX];
        var dstPixel := dest.pixels[dstY * dest.frame.width + dstX];
        dest.pixels[dstY * dest.frame.width + dstX] := Blend(srcPixel, dstPixel, alpha);
      }
      CopyPixel(c, p0, p, dest.pixels[..], s, alpha, srcX, srcY);
      x := x + 1;
    }
    CopyRowDone(c, p0, dest.pixels[..], s, alpha, c.rect.x + x, c.rect.y + y, c.rect.x);
  }

  /** graphics_blit_alpha */
  method BlitAlpha(dest: GraphicsSurface, src: GraphicsSurface, srcRect: SourceRect, destPoint: Point, alpha: Channel)
    requires dest.Valid() && src.Valid() && dest.pixels != src.pixels
    modifies dest.pixels
    ensures Copied(CopyOf(dest.frame, src.frame, srcRect, destPoint),
                   old(dest.pixels[..]), dest.pixels[..], src.pixels[..], alpha)
  {
    var c := CopyOf(dest.frame, src.frame, srcRect, destPoint);
    ghost var p0, s := dest.pixels[..], src.pixels[..];
    CopyStart(c, p0, s, alpha, c.rect.x, c.rect.y);
    hide Upto;
    var y := 0;
    while y < c.rect.height
      invariant 0 <= y && (y <= c.rect.height || y == 0)
      invariant Upto(c, p0, dest.pixels[..], s, alpha, c.rect.x, c.rect.y + y)
    {
      BlitAlphaRow(dest, src, c, y, alpha, p0);
      y := y + 1;
    }
    CopyDone(c, p0, dest.pixels[..], s, alpha, c.rect.x, c.rect.y + y);
  }

  // ------------------------------------------------------------ in rows of pixels

  /** At full opacity, pixel (x, y) of the destination is afterwards the source's pixel at the
      same distance from the rectangle's corner as (x, y) is from the destination point, if the
      rectangle and the source surface have one there, and else what it was. */
  lemma OpaquePixels(dest: Frame, src: Frame, srcRect: SourceRect, at: Point,
                     p0: seq<Color>, p: seq<Color>, s: seq<Color>, x: nat, y: nat)
    requires Copied(CopyOf(dest, src, srcRect, at), p0, p, s, 255) && x < dest.width && y < dest.height
    ensures y * dest.width + x < |p| == |p0|
    ensures var left, top, width, height := if srcRect.Part? then srcRect.rect.x else 0,
                                            if srcRect.Part? then srcRect.rect.y else 0,
                                            if srcRect.Part? then srcRect.rect.width else src.width,
                                            if srcRect.Part? then srcRect.rect.height else src.height;
            var column, row := left + (x - at.x), top + (y - at.y);
            if 0 <= x - at.x < width && 0 <= y - at.y < height && 0 <= column < src.width && 0 <= row < src.height
            then 0 <= row * src.width + column < |s| && p[y * dest.width + x] == s[row * src.width + column]
            else p[y * dest.width + x] == p0[y * dest.width + x]
  {
    var c := CopyOf(dest, src, srcRect, at);
    IndexInBounds(dest, x, y);
    assert At(p, dest, x, y) == c.Result(p0, s, 255, x, y);
    if c.Reaches(x, y) {
      IndexInBounds(src, c.SourceX(x), c.SourceY(y));
    }
  }

  // ------------------------------------------------------------ agreement

  /** The specification leaves nothing open. */
  lemma CopiedUnique(c: Copy, p0: seq<Color>, p: seq<Color>, p': seq<Color>, src: seq<Color>, alpha: Channel)
    requires Copied(c, p0, p, src, alpha) && Copied(c, p0, p', src, alpha)
    ensures p == p'
  {
    forall k | 0 <= k < |p|
      ensures p[k] == p'[k]
    {
      if k < c.to.width * c.to.height {
        var x, y := k % c.to.width, k / c.to.width;
        PixelOfIndex(c.to, k);
        assert At(p, c.to, x, y) == At(p', c.to, x, y);
      }
    }
  }

  lemma PixelOfIndex(f: Frame, k: nat)
    requires k < f.width * f.height
    ensures f.width > 0
    ensures var x, y := k % f.width, k / f.width;
            0 <= x < f.width && 0 <= y < f.height && f.Index(x, y) == k
  {
    var w, y := f.width, k / f.width;
    assert k == y * w + k % w;
    if f.height <= y {
      if f.height < y { Multiple(f.height, y, w); }
    }
  }

  /** A blit with alpha 0 changes nothing. */
  lemma AlphaZeroKeeps(c: Copy, p0: seq<Color>, p: seq<Color>, src: seq<Color>)
    requires Copied(c, p0, p, src, 0)
    ensures p == p0
  {
    assert Copied(c, p0, p0, src, 0);
    CopiedUnique(c, p0, p, p0, src, 0);
  }
}
