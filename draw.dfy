/**
 * The pixel buffer of src/draw.rs and its two drawing operations.
 *
 * `PixelBuffer` is a class whose byte vector is a `seq<u8>` field that the
 * drawing methods reassign one byte at a time, as the loops of src/draw.rs do.
 * Each method is proved against a function of the old buffer from `Raster`;
 * what those functions paint and keep is proved there.
 *
 * `usize` arithmetic is unbounded here; `u32` arithmetic that would overflow or
 * underflow, and a write past the end of the vector, panic in the Rust code
 * and are preconditions here.
 */
module Draw {
  import opened Shapes
  import opened Raster

  datatype ColorSpace = RGB | CYMK | RGBA

  /** How a shape is drawn; `FillAndOutline` is accepted but draws nothing. */
  datatype Style =
    | FillOnly(fill: Color)
    | OutlineOnly(stroke: Color, thickness: u32)
    | FillAndOutline(fillColor: Color, outlineColor: Color, outlineThickness: u32)

  /** Bytes per pixel: three for RGB, four for CYMK and RGBA. */
  function BytesPerPixel(cs: ColorSpace): (n: nat)
    ensures n == 3 <==> cs == RGB
    ensures n == 4 <==> cs != RGB
  {
    match cs
    case RGB => 3
    case RGBA => 4
    case CYMK => 4
  }

  /**
   * `Vec::resize(n, value)`: truncates to n bytes, or appends copies of value
   * up to n bytes.
   */
  function ResizedBytes(buf: seq<u8>, n: nat, value: u8): (r: seq<u8>)
    ensures |r| == n
    ensures forall k :: 0 <= k < n && k < |buf| ==> r[k] == buf[k]
    ensures forall k :: |buf| <= k < n ==> r[k] == value
  {
    if n <= |buf| then buf[..n] else buf + seq(n - |buf|, _ => value)
  }

  /** Resizing to the current length changes nothing. */
  lemma ResizeSameLength(buf: seq<u8>, value: u8)
    ensures ResizedBytes(buf, |buf|, value) == buf
  {
    assert buf[..|buf|] == buf;
  }

  /** Growing and then shrinking back gives the bytes one started with. */
  lemma ResizeGrowShrink(buf: seq<u8>, n: nat, value: u8)
    requires |buf| <= n
    ensures ResizedBytes(ResizedBytes(buf, n, value), |buf|, value) == buf
  {
    var grown := ResizedBytes(buf, n, value);
    assert grown[..|buf|] == buf;
  }

  /** Resizing twice is resizing once to the second length, when the first does not cut below it. */
  lemma ResizeTwice(buf: seq<u8>, n: nat, m: nat, value: u8)
    requires m <= n
    ensures ResizedBytes(ResizedBytes(buf, n, value), m, value) == ResizedBytes(buf, m, value)
  {
  }

  /**
   * The fill loops of a rectangle neither overflow the `u32` coordinates
   * ly + y and lx + x nor write past the buffer.
   */
  predicate FillOk(len: nat, width: nat, bpp: nat, x: nat, y: nat, w: nat, h: nat)
  {
    && (h > 0 ==> y + h - 1 <= U32_MAX)
    && (h > 0 && w > 0 ==> x + w - 1 <= U32_MAX)
    && RectFits(len, width, bpp, x, y, w, h)
  }

  /**
   * The strip corners x + w - t, y + h - t and the sizes w - t, h - t of an
   * outline are computed in `u32` without overflow or underflow, and the strips fit.
   */
  predicate OutlineOk(len: nat, width: nat, bpp: nat, x: nat, y: nat, w: nat, h: nat, t: nat)
  {
    x + w <= U32_MAX && y + h <= U32_MAX && OutlineFits(len, width, bpp, x, y, w, h, t)
  }

  /**
   * The circle loop computes r * r - ly * ly, ly + cy, cy - ly, cx - lx and
   * cx + lx in `u32` without overflow or underflow, and every span fits.
   */
  predicate CircleOk(len: nat, width: nat, bpp: nat, cx: nat, cy: nat, r: nat, halfWidth: (nat, nat) -> nat)
  {
    && r * r <= U32_MAX
    && (r > 0 ==> cy + r - 1 <= U32_MAX)
    && (forall ly: nat :: ly < r ==> cx + halfWidth(r, ly) <= U32_MAX)
    && CircleFits(len, width, bpp, cx, cy, r, halfWidth, r)
  }

  /** The four strips of an outline that is fine to draw are fine to fill. */
  lemma OutlineStripsOk(len: nat, width: nat, bpp: nat, x: nat, y: nat, w: nat, h: nat, t: nat)
    requires OutlineOk(len, width, bpp, x, y, w, h, t)
    ensures FillOk(len, width, bpp, x, y, w, t)
    ensures FillOk(len, width, bpp, x + w - t, y, t, h - t)
    ensures FillOk(len, width, bpp, x, y + t, t, h - t)
    ensures FillOk(len, width, bpp, x + t, y + h - t, w - t, t)
  {
    if t > 0 {
      RectFitsPart(len, width, bpp, x, y, w, h, x, y, w, t);
      RectFitsPart(len, width, bpp, x, y, w, h, x + w - t, y, t, h - t);
      RectFitsPart(len, width, bpp, x, y, w, h, x, y + t, t, h - t);
      RectFitsPart(len, width, bpp, x, y, w, h, x + t, y + h - t, w - t, t);
    }
  }

  lemma SquareBelow(ly: nat, r: nat)
    requires ly < r
    ensures ly * ly < r * r
  {
    var d := r - ly;
    assert r * r == ly * ly + d * (2 * ly + d);
    assert d * (2 * ly + d) > 0;
  }

  /** r * r - ly * ly in `u32`: defined because ly < r and r * r fits. */
  method SquareGap(r: u32, ly: u32) returns (s: u32)
    requires ly < r && r as int * r as int <= U32_MAX
    ensures s as int == r as int * r as int - ly as int * ly as int
  {
    SquareBelow(ly as nat, r as nat);
    s := r * r - ly * ly;
  }

  /** k is sqrt(n) rounded to the nearest integer: k - 1/2 <= sqrt(n) < k + 1/2, squared and scaled by 4. */
  predicate IsRoundedSqrt(n: nat, k: nat)
  {
    (k > 0 ==> (2 * k - 1) * (2 * k - 1) <= 4 * n) && 4 * n < (2 * k + 1) * (2 * k + 1)
  }

  lemma SquareAtLeast(m: nat)
    ensures m <= m * m
  {
    if m > 0 {
      assert m * m == m * (m - 1) + m;
    }
  }

  /** The rounded square root of n, searched upward from k. */
  function RoundSqrtFrom(n: nat, k: nat): (root: nat)
    requires k == 0 || (2 * k - 1) * (2 * k - 1) <= 4 * n
    ensures IsRoundedSqrt(n, root)
    decreases 4 * n + 1 - 2 * k
  {
    SquareAtLeast(2 * k + 1);
    SquareAtLeast(if k > 0 then 2 * k - 1 else 0);
    if 4 * n < (2 * k + 1) * (2 * k + 1) then k
    else RoundSqrtFrom(n, k + 1)
  }

  /** `(n as f32).sqrt().round()` in exact integers. */
  function RoundSqrt(n: nat): (root: nat)
    ensures IsRoundedSqrt(n, root)
  {
    RoundSqrtFrom(n, 0)
  }

  /** Squares of naturals are monotone. */
  lemma SquareMonotone(a: nat, b: nat)
    requires a <= b
    ensures a * a <= b * b
  {
    assert a * a <= a * b <= b * b;
  }

  /** The rounded square root is unique. */
  lemma RoundedSqrtUnique(n: nat, k1: nat, k2: nat)
    requires IsRoundedSqrt(n, k1) && IsRoundedSqrt(n, k2)
    ensures k1 == k2
  {
    if k1 < k2 {
      SquareMonotone(2 * k1 + 1, 2 * k2 - 1);
    } else if k2 < k1 {
      SquareMonotone(2 * k2 + 1, 2 * k1 - 1);
    }
  }

  /** The rounded square root of a number at most r * r is at most r. */
  lemma RoundSqrtAtMost(n: nat, r: nat)
    requires n <= r * r
    ensures RoundSqrt(n) <= r
  {
    var k := RoundSqrt(n);
    if k > r {
      assert (2 * r + 1) * (2 * r + 1) == 4 * (r * r) + 4 * r + 1;
      SquareMonotone(2 * r + 1, 2 * k - 1);
    }
  }

  /** r * r - ly * ly for ly < r, where it is a natural number; 0 otherwise. */
  function SquareDiff(r: nat, ly: nat): nat
  {
    if ly < r then
      SquareBelow(ly, r);
      r * r - ly * ly
    else 0
  }

  /**
   * The half-widths of the circle loop for a rounding square root `root`:
   * row offset ly < r gets root(r * r - ly * ly); the loop never asks for
   * an offset ly >= r.
   */
  ghost function HalfWidths(root: nat -> nat): (nat, nat) -> nat
  {
    (r: nat, ly: nat) => root(SquareDiff(r, ly))
  }

  /** The half-width of row offset ly < r is the root of r * r - ly * ly. */
  lemma HalfWidthAt(root: nat -> nat, r: nat, ly: nat)
    requires ly < r
    ensures HalfWidths(root)(r, ly) == root(r * r - ly * ly)
  {
    assert SquareDiff(r, ly) == r * r - ly * ly;
  }

  /** Any rounding square root that maps 0 .. r * r into 0 .. r gives half-widths bounded by r. */
  lemma HalfWidthsBounded(root: nat -> nat, r: nat)
    requires forall n: nat :: n <= r * r ==> root(n) <= r
    ensures HalfWidthBounded(r, HalfWidths(root))
  {
    forall ly: nat | ly < r
      ensures HalfWidths(root)(r, ly) <= r
    {
      assert SquareDiff(r, ly) <= r * r;
    }
  }

  /** The exact rounded square root gives half-widths that never exceed the radius. */
  lemma ExactHalfWidthBounded(r: nat)
    ensures HalfWidthBounded(r, HalfWidths(RoundSqrt))
  {
    forall n: nat | n <= r * r
      ensures RoundSqrt(n) <= r
    {
      RoundSqrtAtMost(n, r);
    }
    HalfWidthsBounded(RoundSqrt, r);
  }

  /** A raster image of `width` x `height` pixels, stored row by row. */
  class PixelBuffer {
    var width: nat
    var height: nat
    var colorSpace: ColorSpace
    var bytesPerPixel: nat
    var buffer: seq<u8>

    /** The pixel size agrees with the colour space. */
    ghost predicate Valid()
      reads this`bytesPerPixel, this`colorSpace
    {
      bytesPerPixel == BytesPerPixel(colorSpace)
    }

    /** A valid buffer has room for the three colour bytes in every pixel, and at most four bytes per pixel. */
    lemma ValidPixelSize()
      requires Valid()
      ensures 3 <= bytesPerPixel <= 4
      ensures bytesPerPixel == 3 <==> colorSpace == RGB
    {
    }

    /** `PixelBuffer::new`: an empty 0 x 0 buffer. */
    constructor New(cs: ColorSpace)
      ensures Valid()
      ensures colorSpace == cs && GetSize() == (0, 0) && buffer == []
    {
      width, height := 0, 0;
      bytesPerPixel := match cs { case RGB => 3 case _ => 4 };
      colorSpace := cs;
      buffer := [];
    }

    /** `PixelBuffer::with_size`: width * height pixels, every byte zero. */
    constructor WithSize(width: nat, height: nat, cs: ColorSpace)
      ensures Valid()
      ensures colorSpace == cs && GetSize() == (width, height)
      ensures |buffer| == BytesPerPixel(cs) * width * height
      ensures forall k :: 0 <= k < |buffer| ==> buffer[k] == 0
    {
      this.width, this.height := width, height;
      bytesPerPixel := BytesPerPixel(cs);
      colorSpace := cs;
      buffer := seq(BytesPerPixel(cs) * width * height, _ => 0);
    }

    /** The recorded size, which `resize` does not update. */
    function GetSize(): (size: (nat, nat))
      reads this
      ensures size.0 == width && size.1 == height
    {
      (width, height)
    }

    /** Byte offset of pixel (x, y): (width * y + x) * bytesPerPixel. */
    method IndexAtPoint(x: u32, y: u32) returns (i: nat)
      ensures i == PixelIndex(width, bytesPerPixel, x as nat, y as nat)
    {
      IndexIsProduct(width, bytesPerPixel, x as nat, y as nat);
      return (width * y as nat + x as nat) * bytesPerPixel;
    }

    /** Hands the bytes to `func` for reading; being a function, it changes nothing. */
    function Access<R>(func: seq<u8> -> R): (result: R)
      reads this
      ensures result == func(buffer)
    {
      func(buffer)
    }

    /**
     * Resizes the byte vector to hold width * height pixels, keeping the bytes
     * it already has and zeroing the added ones. The recorded size is not
     * updated.
     */
    method Resize(width: nat, height: nat)
      modifies this`buffer
      ensures buffer == ResizedBytes(old(buffer), BytesPerPixel(colorSpace) * width * height, 0)
      ensures GetSize() == old(GetSize())
    {
      var pixelSize := match colorSpace { case RGB => 3 case RGBA => 4 case CYMK => 4 };
      buffer := ResizedBytes(buffer, pixelSize * width * height, 0);
    }

    method WritePixel(i: nat, c: Color)
      requires i + 2 < |buffer|
      modifies this`buffer
      ensures buffer == PutPixel(old(buffer), i, c)
    {
      buffer := buffer[i := c.r];
      buffer := buffer[i + 1 := c.g];
      buffer := buffer[i + 2 := c.b];
    }

    /** `let i = self.index_at_point(x, y)` followed by the three byte writes at i. */
    method PaintAt(x: u32, y: u32, c: Color)
      requires PixelIndex(width, bytesPerPixel, x as nat, y as nat) + 2 < |buffer|
      modifies this`buffer
      ensures buffer == PutPixel(old(buffer), PixelIndex(width, bytesPerPixel, x as nat, y as nat), c)
    {
      var i := IndexAtPoint(x, y);
      WritePixel(i, c);
    }

    /** The inner loop of the `_fill_rect` closure: paints pixels x .. x + n - 1 of row y, left to right. */
    method FillSpanAt(x: u32, y: u32, n: u32, color: Color)
      requires n > 0 ==> x as nat + n as nat - 1 <= U32_MAX
      requires SpanFits(|buffer|, width, bytesPerPixel, x as nat, y as nat, n as nat)
      modifies this`buffer
      ensures |buffer| == |old(buffer)|
      ensures buffer == FillSpan(old(buffer), width, bytesPerPixel, x as nat, y as nat, n as nat, color)
    {
      ghost var wd, bpp := width, bytesPerPixel;
      ghost var x0, yn, len := x as nat, y as nat, n as nat;
      ghost var start := buffer;
      var lx: u32 := 0;
      ghost var col: nat := 0;
      while lx < n
        invariant lx as nat == col && col <= len
        invariant |buffer| == |start|
        invariant SpanFits(|start|, wd, bpp, x0, yn, col)
        invariant buffer == FillSpan(start, wd, bpp, x0, yn, col, color)
      {
        SpanFitsPrefix(|start|, wd, bpp, x0, yn, len, col + 1);
        FillSpanStep(start, wd, bpp, x0, yn, col, color);
        var px := lx + x;
        assert px as nat == x0 + col;
        PaintAt(px, y, color);
        lx := lx + 1;
        col := col + 1;
      }
    }

    /** The `_fill_rect` closure: paints every pixel of the rectangle at rp of size rs, row by row. */
    method FillRect(rp: Vec2<u32>, rs: Vec2<u32>, color: Color)
      requires FillOk(|buffer|, width, bytesPerPixel, rp.x as nat, rp.y as nat, rs.x as nat, rs.y as nat)
      modifies this`buffer
      ensures |buffer| == |old(buffer)|
      ensures buffer == FillRows(old(buffer), width, bytesPerPixel, rp.x as nat, rp.y as nat, rs.x as nat, rs.y as nat, color)
    {
      ghost var wd, bpp := width, bytesPerPixel;
      ghost var x0, y0, w, h := rp.x as nat, rp.y as nat, rs.x as nat, rs.y as nat;
      ghost var start := buffer;
      var ly: u32 := 0;
      ghost var row: nat := 0;
      while ly < rs.y
        invariant ly as nat == row && row <= h
        invariant |buffer| == |start|
        invariant RectFits(|start|, wd, bpp, x0, y0, w, row)
        invariant buffer == FillRows(start, wd, bpp, x0, y0, w, row, color)
      {
        RectFitsPart(|start|, wd, bpp, x0, y0, w, h, x0, y0, w, row + 1);
        FillRowsStep(start, wd, bpp, x0, y0, w, row, color);
        var y := ly + rp.y;
        assert y as nat == y0 + row;
        FillSpanAt(rp.x, y, rs.x, color);
        ly := ly + 1;
        row := row + 1;
      }
    }

    /**
     * `draw_rect`: a fill paints the rectangle; an outline of thickness t
     * paints the strips top, right, left and bottom; `FillAndOutline` draws
     * nothing.
     */
    method DrawRect(rect: Rect, style: Style)
      requires style.FillOnly? ==>
        FillOk(|buffer|, width, bytesPerPixel, rect.x as nat, rect.y as nat, rect.width as nat, rect.height as nat)
      requires style.OutlineOnly? ==>
        OutlineOk(|buffer|, width, bytesPerPixel, rect.x as nat, rect.y as nat,
                  rect.width as nat, rect.height as nat, style.thickness as nat)
      modifies this`buffer
      ensures style.FillOnly? ==>
        buffer == FillRows(old(buffer), width, bytesPerPixel, rect.x as nat, rect.y as nat,
                           rect.width as nat, rect.height as nat, style.fill)
      ensures style.OutlineOnly? ==>
        buffer == Outline(old(buffer), width, bytesPerPixel, rect.x as nat, rect.y as nat,
                          rect.width as nat, rect.height as nat, style.thickness as nat, style.stroke)
      ensures style.FillAndOutline? ==> buffer == old(buffer)
    {
      match style {
        case FillOnly(fillColor) =>
          FillRect(rect.GetPos(), rect.GetSize(), fillColor);
        case OutlineOnly(strokeColor, thickness) =>
          DrawOutline(rect, strokeColor, thickness);
        case FillAndOutline(_, _, _) =>
      }
    }

    /**
     * The outline branch of `draw_rect`: the strips top, right, left and
     * bottom of thickness t are filled one after the other.
     */
    method DrawOutline(rect: Rect, strokeColor: Color, thickness: u32)
      requires OutlineOk(|buffer|, width, bytesPerPixel, rect.x as nat, rect.y as nat,
                         rect.width as nat, rect.height as nat, thickness as nat)
      modifies this`buffer
      ensures buffer == Outline(old(buffer), width, bytesPerPixel, rect.x as nat, rect.y as nat,
                                rect.width as nat, rect.height as nat, thickness as nat, strokeColor)
    {
      var rp := rect.GetPos();
      var rs := rect.GetSize();
      ghost var wd, bpp := width, bytesPerPixel;
      ghost var x, y, w, h, t := rp.x as nat, rp.y as nat, rs.x as nat, rs.y as nat, thickness as nat;
      ghost var b0 := buffer;
      OutlineStripsOk(|b0|, wd, bpp, x, y, w, h, t);
      FillRect(rp, Vec2(rs.x, thickness), strokeColor);
      ghost var b1 := buffer;
      FillRect(Vec2(rp.x + rs.x - thickness, rp.y), Vec2(thickness, rs.y - thickness), strokeColor);
      ghost var b2 := buffer;
      FillRect(Vec2(rp.x, rp.y + thickness), Vec2(thickness, rs.y - thickness), strokeColor);
      ghost var b3 := buffer;
      FillRect(Vec2(rp.x + thickness, rp.y + rs.y - thickness), Vec2(rs.x - thickness, thickness), strokeColor);
      OutlineSteps(b0, wd, bpp, x, y, w, h, t, strokeColor, b1, b2, b3, buffer);
    }

    /**
     * The inner loop of `draw_circle`: paints pixels xStart .. xEnd - 1 of
     * row y1 and of row y2, alternating between the two rows.
     */
    method FillRowPair(xStart: u32, xEnd: u32, y1: u32, y2: u32, color: Color,
                       ghost x0: nat, ghost row1: nat, ghost row2: nat, ghost len: nat)
      requires xStart as nat == x0 && y1 as nat == row1 && y2 as nat == row2 && xEnd as nat == x0 + len
      requires PairFits(|buffer|, width, bytesPerPixel, x0, row1, row2, len)
      modifies this`buffer
      ensures buffer == PairSpan(old(buffer), width, bytesPerPixel, x0, row1, row2, len, color)
    {
      ghost var wd, bpp := width, bytesPerPixel;
      ghost var start := buffer;
      ghost var n: nat := 0;
      var x := xStart;
      while x < xEnd
        invariant x as nat == x0 + n && n <= len
        invariant |buffer| == |start|
        invariant PairFits(|start|, wd, bpp, x0, row1, row2, n)
        invariant buffer == PairSpan(start, wd, bpp, x0, row1, row2, n, color)
      {
        PairFitsPrefix(|start|, wd, bpp, x0, row1, row2, len, n + 1);
        PairSpanStep(start, wd, bpp, x0, row1, row2, n, color);
        PaintAt(x, y1, color);
        PaintAt(x, y2, color);
        x := x + 1;
        n := n + 1;
      }
    }

    /**
     * One pass of the `draw_circle` loop: lx is the root of the u32 value
     * r * r - ly * ly, and the pixels cx - lx .. cx + lx - 1 are painted on
     * rows cy + ly and cy - ly.
     */
    method FillCircleRow(center: Vec2<u32>, r: u32, ly: u32, root: nat -> nat, color: Color,
                         ghost half: nat, ghost x0: nat, ghost row1: nat, ghost row2: nat)
      requires ly < r && r as int * r as int <= U32_MAX && center.y as int + ly as int <= U32_MAX
      requires half == HalfWidths(root)(r as nat, ly as nat) && center.x as int + half <= U32_MAX
      requires x0 + half == center.x as nat && row1 == center.y as nat + ly as nat && row2 + ly as nat == center.y as nat
      requires PairFits(|buffer|, width, bytesPerPixel, x0, row1, row2, 2 * half)
      modifies this`buffer
      ensures buffer == PairSpan(old(buffer), width, bytesPerPixel, x0, row1, row2, 2 * half, color)
    {
      var squared := SquareGap(r, ly);
      HalfWidthAt(root, r as nat, ly as nat);
      var lx := root(squared as nat) as u32;
      var y1 := ly + center.y;
      var y2 := center.y - ly;
      var xStart := center.x - lx;
      var xEnd := center.x + lx;
      FillRowPair(xStart, xEnd, y1, y2, color, x0, row1, row2, 2 * half);
    }

    /**
     * `draw_circle`: a fill paints, for each row offset ly < r, the pixels
     * cx - lx .. cx + lx - 1 of rows cy + ly and cy - ly, where lx is the
     * rounded square root of r * r - ly * ly. The rounding square root
     * (`(n as f32).sqrt().round() as u32` in the Rust code) is the parameter
     * `root`; the loop applies it to the u32 value r * r - ly * ly it computes.
     * Any other style draws nothing.
     */
    method DrawCircle(circle: Circle, style: Style, root: nat -> nat)
      requires style.FillOnly? ==>
        CircleOk(|buffer|, width, bytesPerPixel, circle.x as nat, circle.y as nat, circle.radius as nat, HalfWidths(root))
      modifies this`buffer
      ensures style.FillOnly? ==>
        buffer == CircleRows(old(buffer), width, bytesPerPixel, circle.x as nat, circle.y as nat,
                             circle.radius as nat, HalfWidths(root), circle.radius as nat, style.fill)
      ensures !style.FillOnly? ==> buffer == old(buffer)
    {
      match style {
        case FillOnly(fillColor) =>
          var r := circle.GetRadius();
          var center := circle.GetPos();
          ghost var wd, bpp := width, bytesPerPixel;
          ghost var cx, cy, rn := center.x as nat, center.y as nat, r as nat;
          ghost var start := buffer;
          ghost var halfWidth := HalfWidths(root);
          var ly: u32 := 0;
          ghost var m: nat := 0;
          while ly < r
            invariant ly as nat == m && m <= rn
            invariant |buffer| == |start|
            invariant CircleFits(|start|, wd, bpp, cx, cy, rn, halfWidth, m)
            invariant buffer == CircleRows(start, wd, bpp, cx, cy, rn, halfWidth, m, fillColor)
          {
            ghost var lxn: nat := halfWidth(rn, m);
            CircleRowFits(|start|, wd, bpp, cx, cy, rn, halfWidth, rn, m);
            CircleFitsPrefix(|start|, wd, bpp, cx, cy, rn, halfWidth, rn, m + 1);
            ghost var x0, row1, row2 := cx - lxn, cy + m, cy - m;
            CircleRowsStep(start, wd, bpp, cx, cy, rn, halfWidth, m, fillColor, x0, row1, row2, 2 * lxn);
            FillCircleRow(center, r, ly, root, fillColor, lxn, x0, row1, row2);
            ly := ly + 1;
            m := m + 1;
          }
        case OutlineOnly(_, _) =>
        case FillAndOutline(_, _, _) =>
      }
    }
  }
}
