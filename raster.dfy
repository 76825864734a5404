/**
 * Pixel-level meaning of the rasterizer of src/draw.rs, stated on plain values.
 *
 * A buffer is a row-major sequence of bytes, `bpp` bytes per pixel, `width`
 * pixels per row. Drawing writes the three colour bytes r, g, b at the start of
 * each covered pixel. The functions below give the buffer that the drawing loops
 * of `Draw.PixelBuffer` produce, in the order those loops write; the lemmas say
 * which pixels end up with the colour and which bytes are left as they were.
 */
module Raster {

  /** Unsigned byte. */
  newtype u8 = b: int | 0 <= b < 0x100

  /** An opaque RGB colour; there is no alpha channel. */
  datatype Color = Color(r: u8, g: u8, b: u8)

  /**
   * Multiplication as repeated addition. The offsets below are written with it
   * so that the verifier unfolds a product only one step at a time and the
   * proofs about offsets stay linear; MulIsProduct ties it to `*`.
   */
  function Mul(a: nat, b: nat): nat
  {
    if a == 0 then 0 else Mul(Pred(a), b) + b
  }

  /**
   * a - 1, behind a call: the verifier does not treat a call as a constant, so it
   * never evaluates Mul of two constants by unfolding it thousands of times.
   */
  function Pred(a: nat): nat
    requires a > 0
  {
    a - 1
  }

  /**
   * Byte offset of pixel (x, y): (width * y + x) * bpp. There is no check
   * against the row width or the buffer length: x >= width falls on a later row.
   */
  function PixelIndex(width: nat, bpp: nat, x: nat, y: nat): nat
  {
    Mul(Mul(y, width) + x, bpp)
  }

  /** Byte k is one of the three colour bytes of the pixel starting at i. */
  predicate InWindow(k: int, i: nat)
  {
    i <= k < i + 3
  }

  /** The pixel starting at byte i holds colour c. */
  predicate HasColour(buf: seq<u8>, i: nat, c: Color)
  {
    i + 2 < |buf| && buf[i] == c.r && buf[i + 1] == c.g && buf[i + 2] == c.b
  }

  /** Pixel (px, py) lies in the rectangle with corner (x, y) and size w x h. */
  predicate InRect(px: int, py: int, x: int, y: int, w: int, h: int)
  {
    x <= px < x + w && y <= py < y + h
  }

  // ---------------------------------------------------------------------------
  // Arithmetic of the address translation

  lemma {:induction false} MulIsProduct(a: nat, b: nat)
    ensures Mul(a, b) == a * b
  {
    if a > 0 {
      MulIsProduct(a - 1, b);
    }
  }

  lemma {:induction false} MulMonotone(a: nat, b: nat, k: nat)
    requires a <= b
    ensures Mul(a, k) <= Mul(b, k)
  {
    if a < b {
      MulMonotone(a, b - 1, k);
    }
  }

  lemma {:induction false} MulAdd(a: nat, b: nat, k: nat)
    ensures Mul(a + b, k) == Mul(a, k) + Mul(b, k)
  {
    if b > 0 {
      MulAdd(a, b - 1, k);
    }
  }

  /** PixelIndex grows with both coordinates. */
  lemma IndexMonotone(width: nat, bpp: nat, x1: nat, y1: nat, x2: nat, y2: nat)
    requires x1 <= x2 && y1 <= y2
    ensures PixelIndex(width, bpp, x1, y1) <= PixelIndex(width, bpp, x2, y2)
  {
    MulMonotone(y1, y2, width);
    MulMonotone(Mul(y1, width) + x1, Mul(y2, width) + x2, bpp);
  }

  /** Distinct multiples of bpp are at least bpp apart. */
  lemma AlignedApart(m1: nat, m2: nat, bpp: nat)
    requires m1 != m2
    ensures Mul(m1, bpp) + bpp <= Mul(m2, bpp) || Mul(m2, bpp) + bpp <= Mul(m1, bpp)
  {
    if m1 < m2 {
      MulMonotone(m1 + 1, m2, bpp);
    } else {
      MulMonotone(m2 + 1, m1, bpp);
    }
  }

  /**
   * Byte j of pixel p lies outside the colour bytes of pixel q, when p and q
   * start at different offsets or j is a padding byte (the fourth byte of RGBA).
   */
  lemma OutsideWindow(width: nat, bpp: nat, px: nat, py: nat, j: nat, qx: nat, qy: nat)
    requires 3 <= bpp && j < bpp
    requires 3 <= j || PixelIndex(width, bpp, px, py) != PixelIndex(width, bpp, qx, qy)
    ensures !InWindow(PixelIndex(width, bpp, px, py) + j, PixelIndex(width, bpp, qx, qy))
  {
    var m1, m2 := Mul(py, width) + px, Mul(qy, width) + qx;
    if m1 != m2 {
      AlignedApart(m1, m2, bpp);
    }
  }

  /** Within the row width the address translation is one-to-one. */
  lemma IndexInjective(width: nat, bpp: nat, px: nat, py: nat, qx: nat, qy: nat)
    requires 0 < bpp && px < width && qx < width
    requires px != qx || py != qy
    ensures PixelIndex(width, bpp, px, py) != PixelIndex(width, bpp, qx, qy)
  {
    var m1, m2 := Mul(py, width) + px, Mul(qy, width) + qx;
    assert m1 != m2 by {
      if py < qy {
        MulMonotone(py + 1, qy, width);
      } else if qy < py {
        MulMonotone(qy + 1, py, width);
      }
    }
    AlignedApart(m1, m2, bpp);
  }

  // ---------------------------------------------------------------------------
  // Writing one pixel

  /** Writes the three colour bytes of c at offset i. */
  function PutPixel(buf: seq<u8>, i: nat, c: Color): (r: seq<u8>)
    requires i + 2 < |buf|
    ensures |r| == |buf|
  {
    buf[i := c.r][i + 1 := c.g][i + 2 := c.b]
  }

  /** Only the three colour bytes at i change. */
  lemma PutPixelFrame(buf: seq<u8>, i: nat, c: Color, k: nat)
    requires i + 2 < |buf| && k < |buf| && !InWindow(k, i)
    ensures PutPixel(buf, i, c)[k] == buf[k]
  {
  }

  lemma PutPixelPaints(buf: seq<u8>, i: nat, c: Color)
    requires i + 2 < |buf|
    ensures HasColour(PutPixel(buf, i, c), i, c)
  {
  }

  /** Painting a pixel keeps every other pixel that already has the same colour. */
  lemma PutPixelKeeps(buf: seq<u8>, width: nat, bpp: nat, x: nat, y: nat, qx: nat, qy: nat, c: Color)
    requires 3 <= bpp
    requires PixelIndex(width, bpp, x, y) + 2 < |buf|
    requires HasColour(buf, PixelIndex(width, bpp, qx, qy), c)
    ensures HasColour(PutPixel(buf, PixelIndex(width, bpp, x, y), c), PixelIndex(width, bpp, qx, qy), c)
  {
    var i, j := PixelIndex(width, bpp, x, y), PixelIndex(width, bpp, qx, qy);
    if i != j {
      OutsideWindow(width, bpp, qx, qy, 0, x, y);
      OutsideWindow(width, bpp, qx, qy, 1, x, y);
      OutsideWindow(width, bpp, qx, qy, 2, x, y);
    }
  }

  // ---------------------------------------------------------------------------
  // Rectangle fill: the inner loop paints one row span, the outer loop the rows

  /** The last pixel of the span (x .. x+n-1, y) is inside the buffer. */
  predicate SpanFits(len: nat, width: nat, bpp: nat, x: nat, y: nat, n: nat)
  {
    n == 0 || PixelIndex(width, bpp, x + n - 1, y) + 2 < len
  }

  /** The bottom-right pixel of the rectangle is inside the buffer. */
  predicate RectFits(len: nat, width: nat, bpp: nat, x: nat, y: nat, w: nat, h: nat)
  {
    w == 0 || h == 0 || PixelIndex(width, bpp, x + w - 1, y + h - 1) + 2 < len
  }

  lemma SpanFitsPrefix(len: nat, width: nat, bpp: nat, x: nat, y: nat, n: nat, m: nat)
    requires m <= n && SpanFits(len, width, bpp, x, y, n)
    ensures SpanFits(len, width, bpp, x, y, m)
  {
    if m > 0 {
      IndexMonotone(width, bpp, x + m - 1, y, x + n - 1, y);
    }
  }

  /** Every row span and every sub-rectangle of a fitting rectangle fits. */
  lemma RectFitsPart(len: nat, width: nat, bpp: nat, x: nat, y: nat, w: nat, h: nat,
                     x': nat, y': nat, w': nat, h': nat)
    requires RectFits(len, width, bpp, x, y, w, h)
    requires x <= x' && x' + w' <= x + w && y <= y' && y' + h' <= y + h
    ensures RectFits(len, width, bpp, x', y', w', h')
    ensures h' > 0 ==> SpanFits(len, width, bpp, x', y' + h' - 1, w')
  {
    if w' > 0 && h' > 0 {
      IndexMonotone(width, bpp, x' + w' - 1, y' + h' - 1, x + w - 1, y + h - 1);
    }
  }

  /** Paints pixels x .. x+n-1 of row y, left to right. */
  function FillSpan(buf: seq<u8>, width: nat, bpp: nat, x: nat, y: nat, n: nat, c: Color): (r: seq<u8>)
    requires SpanFits(|buf|, width, bpp, x, y, n)
    ensures |r| == |buf|
  {
    if n == 0 then buf
    else
      SpanFitsPrefix(|buf|, width, bpp, x, y, n, n - 1);
      PutPixel(FillSpan(buf, width, bpp, x, y, n - 1, c), PixelIndex(width, bpp, x + n - 1, y), c)
  }

  /** Paints rows y .. y+h-1 of the rectangle, top to bottom. */
  function FillRows(buf: seq<u8>, width: nat, bpp: nat, x: nat, y: nat, w: nat, h: nat, c: Color): (r: seq<u8>)
    requires RectFits(|buf|, width, bpp, x, y, w, h)
    ensures |r| == |buf|
  {
    if h == 0 then buf
    else
      RectFitsPart(|buf|, width, bpp, x, y, w, h, x, y, w, h - 1);
      RectFitsPart(|buf|, width, bpp, x, y, w, h, x, y, w, h);
      FillSpan(FillRows(buf, width, bpp, x, y, w, h - 1, c), width, bpp, x, y + h - 1, w, c)
  }

  /** One step of FillSpan: pixel x + n is painted over the first n. */
  lemma FillSpanStep(buf: seq<u8>, width: nat, bpp: nat, x: nat, y: nat, n: nat, c: Color)
    requires SpanFits(|buf|, width, bpp, x, y, n + 1)
    ensures SpanFits(|buf|, width, bpp, x, y, n)
    ensures PixelIndex(width, bpp, x + n, y) + 2 < |buf|
    ensures FillSpan(buf, width, bpp, x, y, n + 1, c)
         == PutPixel(FillSpan(buf, width, bpp, x, y, n, c), PixelIndex(width, bpp, x + n, y), c)
  {
    SpanFitsPrefix(|buf|, width, bpp, x, y, n + 1, n);
  }

  /** One step of FillRows: row y + h is painted below the first h rows. */
  lemma FillRowsStep(buf: seq<u8>, width: nat, bpp: nat, x: nat, y: nat, w: nat, h: nat, c: Color)
    requires RectFits(|buf|, width, bpp, x, y, w, h + 1)
    ensures RectFits(|buf|, width, bpp, x, y, w, h)
    ensures SpanFits(|buf|, width, bpp, x, y + h, w)
    ensures FillRows(buf, width, bpp, x, y, w, h + 1, c)
         == FillSpan(FillRows(buf, width, bpp, x, y, w, h, c), width, bpp, x, y + h, w, c)
  {
    RectFitsPart(|buf|, width, bpp, x, y, w, h + 1, x, y, w, h);
    RectFitsPart(|buf|, width, bpp, x, y, w, h + 1, x, y, w, h + 1);
  }

  lemma {:induction false} FillSpanKeeps(buf: seq<u8>, width: nat, bpp: nat, x: nat, y: nat, n: nat, c: Color,
                                         qx: nat, qy: nat)
    requires 3 <= bpp && SpanFits(|buf|, width, bpp, x, y, n)
    requires HasColour(buf, PixelIndex(width, bpp, qx, qy), c)
    ensures HasColour(FillSpan(buf, width, bpp, x, y, n, c), PixelIndex(width, bpp, qx, qy), c)
  {
    if n > 0 {
      SpanFitsPrefix(|buf|, width, bpp, x, y, n, n - 1);
      FillSpanKeeps(buf, width, bpp, x, y, n - 1, c, qx, qy);
      PutPixelKeeps(FillSpan(buf, width, bpp, x, y, n - 1, c), width, bpp, x + n - 1, y, qx, qy, c);
    }
  }

  /** After the span is painted, each of its pixels has the colour. */
  lemma {:induction false} FillSpanColours(buf: seq<u8>, width: nat, bpp: nat, x: nat, y: nat, n: nat, c: Color, px: nat)
    requires 3 <= bpp && SpanFits(|buf|, width, bpp, x, y, n)
    requires x <= px < x + n
    ensures HasColour(FillSpan(buf, width, bpp, x, y, n, c), PixelIndex(width, bpp, px, y), c)
  {
    SpanFitsPrefix(|buf|, width, bpp, x, y, n, n - 1);
    if px < x + n - 1 {
      FillSpanColours(buf, width, bpp, x, y, n - 1, c, px);
      PutPixelKeeps(FillSpan(buf, width, bpp, x, y, n - 1, c), width, bpp, x + n - 1, y, px, y, c);
    }
  }

  /** A byte outside the colour bytes of every pixel of the span is unchanged. */
  lemma {:induction false} FillSpanFrame(buf: seq<u8>, width: nat, bpp: nat, x: nat, y: nat, n: nat, c: Color, k: nat)
    requires SpanFits(|buf|, width, bpp, x, y, n) && k < |buf|
    requires forall px: nat :: x <= px < x + n ==> !InWindow(k, PixelIndex(width, bpp, px, y))
    ensures FillSpan(buf, width, bpp, x, y, n, c)[k] == buf[k]
  {
    if n > 0 {
      SpanFitsPrefix(|buf|, width, bpp, x, y, n, n - 1);
      FillSpanFrame(buf, width, bpp, x, y, n - 1, c, k);
      assert !InWindow(k, PixelIndex(width, bpp, x + n - 1, y));
    }
  }

  lemma {:induction false} FillRowsKeeps(buf: seq<u8>, width: nat, bpp: nat, x: nat, y: nat, w: nat, h: nat, c: Color,
                                         qx: nat, qy: nat)
    requires 3 <= bpp && RectFits(|buf|, width, bpp, x, y, w, h)
    requires HasColour(buf, PixelIndex(width, bpp, qx, qy), c)
    ensures HasColour(FillRows(buf, width, bpp, x, y, w, h, c), PixelIndex(width, bpp, qx, qy), c)
  {
    if h > 0 {
      RectFitsPart(|buf|, width, bpp, x, y, w, h, x, y, w, h - 1);
      RectFitsPart(|buf|, width, bpp, x, y, w, h, x, y, w, h);
      FillRowsKeeps(buf, width, bpp, x, y, w, h - 1, c, qx, qy);
      FillSpanKeeps(FillRows(buf, width, bpp, x, y, w, h - 1, c), width, bpp, x, y + h - 1, w, c, qx, qy);
    }
  }

  /** After the fill, every pixel of the rectangle has the colour. */
  lemma {:induction false} FillRowsColours(buf: seq<u8>, width: nat, bpp: nat, x: nat, y: nat, w: nat, h: nat, c: Color,
                                           px: nat, py: nat)
    requires 3 <= bpp && RectFits(|buf|, width, bpp, x, y, w, h)
    requires InRect(px, py, x, y, w, h)
    ensures HasColour(FillRows(buf, width, bpp, x, y, w, h, c), PixelIndex(width, bpp, px, py), c)
  {
    RectFitsPart(|buf|, width, bpp, x, y, w, h, x, y, w, h - 1);
    RectFitsPart(|buf|, width, bpp, x, y, w, h, x, y, w, h);
    var above := FillRows(buf, width, bpp, x, y, w, h - 1, c);
    if py == y + h - 1 {
      FillSpanColours(above, width, bpp, x, y + h - 1, w, c, px);
    } else {
      FillRowsColours(buf, width, bpp, x, y, w, h - 1, c, px, py);
      FillSpanKeeps(above, width, bpp, x, y + h - 1, w, c, px, py);
    }
  }

  /** A byte outside the colour bytes of every pixel of the rectangle is unchanged. */
  lemma {:induction false} FillRowsFrame(buf: seq<u8>, width: nat, bpp: nat, x: nat, y: nat, w: nat, h: nat, c: Color,
                                         k: nat)
    requires RectFits(|buf|, width, bpp, x, y, w, h) && k < |buf|
    requires forall px: nat, py: nat :: InRect(px, py, x, y, w, h) ==> !InWindow(k, PixelIndex(width, bpp, px, py))
    ensures FillRows(buf, width, bpp, x, y, w, h, c)[k] == buf[k]
  {
    if h > 0 {
      RectFitsPart(|buf|, width, bpp, x, y, w, h, x, y, w, h - 1);
      RectFitsPart(|buf|, width, bpp, x, y, w, h, x, y, w, h);
      FillRowsFrame(buf, width, bpp, x, y, w, h - 1, c, k);
      var row := y + h - 1;
      forall px: nat | x <= px < x + w
        ensures !InWindow(k, PixelIndex(width, bpp, px, row))
      {
        assert InRect(px, row, x, y, w, h);
      }
      FillSpanFrame(FillRows(buf, width, bpp, x, y, w, h - 1, c), width, bpp, x, row, w, c, k);
    }
  }

  /**
   * Outside the rectangle nothing changes: when the rectangle lies within the
   * row width, no byte of a pixel outside it is written.
   */
  lemma FillRowsKeepsOutside(buf: seq<u8>, width: nat, bpp: nat, x: nat, y: nat, w: nat, h: nat, c: Color,
                             px: nat, py: nat, j: nat)
    requires 3 <= bpp && RectFits(|buf|, width, bpp, x, y, w, h)
    requires x + w <= width && px < width && !InRect(px, py, x, y, w, h)
    requires j < bpp && PixelIndex(width, bpp, px, py) + j < |buf|
    ensures FillRows(buf, width, bpp, x, y, w, h, c)[PixelIndex(width, bpp, px, py) + j]
         == buf[PixelIndex(width, bpp, px, py) + j]
  {
    forall qx: nat, qy: nat | InRect(qx, qy, x, y, w, h)
      ensures !InWindow(PixelIndex(width, bpp, px, py) + j, PixelIndex(width, bpp, qx, qy))
    {
      IndexInjective(width, bpp, px, py, qx, qy);
      OutsideWindow(width, bpp, px, py, j, qx, qy);
    }
    FillRowsFrame(buf, width, bpp, x, y, w, h, c, PixelIndex(width, bpp, px, py) + j);
  }

  /**
   * With four bytes per pixel the fourth (alpha) byte of a pixel is never
   * written by a fill, whichever pixel it belongs to.
   */
  lemma FillRowsKeepsPadding(buf: seq<u8>, width: nat, bpp: nat, x: nat, y: nat, w: nat, h: nat, c: Color,
                             px: nat, py: nat, j: nat)
    requires RectFits(|buf|, width, bpp, x, y, w, h)
    requires 3 <= j < bpp && PixelIndex(width, bpp, px, py) + j < |buf|
    ensures FillRows(buf, width, bpp, x, y, w, h, c)[PixelIndex(width, bpp, px, py) + j]
         == buf[PixelIndex(width, bpp, px, py) + j]
  {
    forall qx: nat, qy: nat | InRect(qx, qy, x, y, w, h)
      ensures !InWindow(PixelIndex(width, bpp, px, py) + j, PixelIndex(width, bpp, qx, qy))
    {
      OutsideWindow(width, bpp, px, py, j, qx, qy);
    }
    FillRowsFrame(buf, width, bpp, x, y, w, h, c, PixelIndex(width, bpp, px, py) + j);
  }

  // ---------------------------------------------------------------------------
  // Rectangle outline: four strips filled in the order top, right, left, bottom

  /** t <= w and t <= h, and when anything is drawn the bottom-right pixel is inside. */
  predicate OutlineFits(len: nat, width: nat, bpp: nat, x: nat, y: nat, w: nat, h: nat, t: nat)
  {
    t <= w && t <= h && (t > 0 ==> PixelIndex(width, bpp, x + w - 1, y + h - 1) + 2 < len)
  }

  /** Pixel (px, py) is on the frame of thickness t of the rectangle. */
  predicate OnFrame(px: int, py: int, x: int, y: int, w: int, h: int, t: int)
  {
    InRect(px, py, x, y, w, h) && (px < x + t || px >= x + w - t || py < y + t || py >= y + h - t)
  }

  /** A rectangle of pixels: corner (x, y), w columns and h rows. */
  datatype Area = Area(x: nat, y: nat, w: nat, h: nat)

  predicate InArea(px: int, py: int, a: Area)
  {
    InRect(px, py, a.x, a.y, a.w, a.h)
  }

  predicate AreasFit(len: nat, width: nat, bpp: nat, areas: seq<Area>)
  {
    forall i :: 0 <= i < |areas| ==> RectFits(len, width, bpp, areas[i].x, areas[i].y, areas[i].w, areas[i].h)
  }

  /** Fills the areas one after another. */
  function FillAreas(buf: seq<u8>, width: nat, bpp: nat, areas: seq<Area>, c: Color): (r: seq<u8>)
    requires AreasFit(|buf|, width, bpp, areas)
    ensures |r| == |buf|
    decreases |areas|
  {
    if areas == [] then buf
    else
      var a := areas[0];
      assert RectFits(|buf|, width, bpp, areas[0].x, areas[0].y, areas[0].w, areas[0].h);
      var next := FillRows(buf, width, bpp, a.x, a.y, a.w, a.h, c);
      assert AreasFit(|next|, width, bpp, areas[1..]) by {
        forall i | 0 <= i < |areas[1..]|
          ensures RectFits(|next|, width, bpp, areas[1..][i].x, areas[1..][i].y, areas[1..][i].w, areas[1..][i].h)
        {
          assert areas[1..][i] == areas[i + 1];
        }
      }
      FillAreas(next, width, bpp, areas[1..], c)
  }

  /** The rest of the areas after the first still fit once the first is filled. */
  lemma AreasFitTail(buf: seq<u8>, width: nat, bpp: nat, areas: seq<Area>, c: Color)
    requires areas != [] && AreasFit(|buf|, width, bpp, areas)
    ensures RectFits(|buf|, width, bpp, areas[0].x, areas[0].y, areas[0].w, areas[0].h)
    ensures AreasFit(|FillRows(buf, width, bpp, areas[0].x, areas[0].y, areas[0].w, areas[0].h, c)|,
                     width, bpp, areas[1..])
  {
    assert RectFits(|buf|, width, bpp, areas[0].x, areas[0].y, areas[0].w, areas[0].h);
    forall i | 0 <= i < |areas[1..]|
      ensures RectFits(|buf|, width, bpp, areas[1..][i].x, areas[1..][i].y, areas[1..][i].w, areas[1..][i].h)
    {
      assert areas[1..][i] == areas[i + 1];
    }
  }

  lemma {:induction false} FillAreasKeeps(buf: seq<u8>, width: nat, bpp: nat, areas: seq<Area>, c: Color,
                                          qx: nat, qy: nat)
    requires 3 <= bpp && AreasFit(|buf|, width, bpp, areas)
    requires HasColour(buf, PixelIndex(width, bpp, qx, qy), c)
    ensures HasColour(FillAreas(buf, width, bpp, areas, c), PixelIndex(width, bpp, qx, qy), c)
    decreases |areas|
  {
    if areas != [] {
      var a := areas[0];
      AreasFitTail(buf, width, bpp, areas, c);
      FillRowsKeeps(buf, width, bpp, a.x, a.y, a.w, a.h, c, qx, qy);
      FillAreasKeeps(FillRows(buf, width, bpp, a.x, a.y, a.w, a.h, c), width, bpp, areas[1..], c, qx, qy);
    }
  }

  /** After the areas are filled, every pixel of area i has the colour. */
  lemma {:induction false} FillAreasColours(buf: seq<u8>, width: nat, bpp: nat, areas: seq<Area>, c: Color,
                                            i: nat, px: nat, py: nat)
    requires 3 <= bpp && AreasFit(|buf|, width, bpp, areas)
    requires i < |areas| && InArea(px, py, areas[i])
    ensures HasColour(FillAreas(buf, width, bpp, areas, c), PixelIndex(width, bpp, px, py), c)
    decreases |areas|
  {
    var a := areas[0];
    AreasFitTail(buf, width, bpp, areas, c);
    var next := FillRows(buf, width, bpp, a.x, a.y, a.w, a.h, c);
    if i == 0 {
      FillRowsColours(buf, width, bpp, a.x, a.y, a.w, a.h, c, px, py);
      FillAreasKeeps(next, width, bpp, areas[1..], c, px, py);
    } else {
      assert areas[1..][i - 1] == areas[i];
      FillAreasColours(next, width, bpp, areas[1..], c, i - 1, px, py);
    }
  }

  /** A byte outside the colour bytes of every pixel of every area is unchanged. */
  lemma {:induction false} FillAreasFrame(buf: seq<u8>, width: nat, bpp: nat, areas: seq<Area>, c: Color, k: nat)
    requires AreasFit(|buf|, width, bpp, areas) && k < |buf|
    requires forall i, px: nat, py: nat :: 0 <= i < |areas| && InArea(px, py, areas[i])
               ==> !InWindow(k, PixelIndex(width, bpp, px, py))
    ensures FillAreas(buf, width, bpp, areas, c)[k] == buf[k]
    decreases |areas|
  {
    if areas != [] {
      var a := areas[0];
      AreasFitTail(buf, width, bpp, areas, c);
      forall px: nat, py: nat | InRect(px, py, a.x, a.y, a.w, a.h)
        ensures !InWindow(k, PixelIndex(width, bpp, px, py))
      {
        assert InArea(px, py, areas[0]);
      }
      FillRowsFrame(buf, width, bpp, a.x, a.y, a.w, a.h, c, k);
      var rest := areas[1..];
      forall i, px: nat, py: nat | 0 <= i < |rest| && InArea(px, py, rest[i])
        ensures !InWindow(k, PixelIndex(width, bpp, px, py))
      {
        assert rest[i] == areas[i + 1];
      }
      FillAreasFrame(FillRows(buf, width, bpp, a.x, a.y, a.w, a.h, c), width, bpp, rest, c, k);
    }
  }

  /** The four strips of the outline of thickness t, in the order they are filled: top, right, left, bottom. */
  function Strips(x: nat, y: nat, w: nat, h: nat, t: nat): seq<Area>
    requires t <= w && t <= h
  {
    [Area(x, y, w, t), Area(x + w - t, y, t, h - t), Area(x, y + t, t, h - t), Area(x + t, y + h - t, w - t, t)]
  }

  /** The four strips together cover exactly the frame of thickness t. */
  lemma StripsCoverFrame(px: int, py: int, x: nat, y: nat, w: nat, h: nat, t: nat)
    requires t <= w && t <= h
    ensures var s := Strips(x, y, w, h, t);
      OnFrame(px, py, x, y, w, h, t)
      <==> (InArea(px, py, s[0]) || InArea(px, py, s[1]) || InArea(px, py, s[2]) || InArea(px, py, s[3]))
  {
  }

  /** Each strip of a fitting outline fits. */
  lemma StripsFit(len: nat, width: nat, bpp: nat, x: nat, y: nat, w: nat, h: nat, t: nat)
    requires OutlineFits(len, width, bpp, x, y, w, h, t)
    ensures AreasFit(len, width, bpp, Strips(x, y, w, h, t))
  {
    if t > 0 {
      RectFitsPart(len, width, bpp, x, y, w, h, x, y, w, t);
      RectFitsPart(len, width, bpp, x, y, w, h, x + w - t, y, t, h - t);
      RectFitsPart(len, width, bpp, x, y, w, h, x, y + t, t, h - t);
      RectFitsPart(len, width, bpp, x, y, w, h, x + t, y + h - t, w - t, t);
    }
  }

  /** The buffer after the outline is drawn. */
  function Outline(buf: seq<u8>, width: nat, bpp: nat, x: nat, y: nat, w: nat, h: nat, t: nat, c: Color): (r: seq<u8>)
    requires OutlineFits(|buf|, width, bpp, x, y, w, h, t)
    ensures |r| == |buf|
  {
    StripsFit(|buf|, width, bpp, x, y, w, h, t);
    FillAreas(buf, width, bpp, Strips(x, y, w, h, t), c)
  }

  /** After the outline is drawn, every pixel of the frame has the colour. */
  lemma OutlineColours(buf: seq<u8>, width: nat, bpp: nat, x: nat, y: nat, w: nat, h: nat, t: nat, c: Color,
                       px: nat, py: nat)
    requires 3 <= bpp && OutlineFits(|buf|, width, bpp, x, y, w, h, t)
    requires OnFrame(px, py, x, y, w, h, t)
    ensures HasColour(Outline(buf, width, bpp, x, y, w, h, t, c), PixelIndex(width, bpp, px, py), c)
  {
    StripsFit(|buf|, width, bpp, x, y, w, h, t);
    StripsCoverFrame(px, py, x, y, w, h, t);
    var s := Strips(x, y, w, h, t);
    var i := if InArea(px, py, s[0]) then 0 else if InArea(px, py, s[1]) then 1
             else if InArea(px, py, s[2]) then 2 else 3;
    FillAreasColours(buf, width, bpp, s, c, i, px, py);
  }

  /** A byte outside the colour bytes of every frame pixel is unchanged. */
  lemma OutlineFrame(buf: seq<u8>, width: nat, bpp: nat, x: nat, y: nat, w: nat, h: nat, t: nat, c: Color, k: nat)
    requires OutlineFits(|buf|, width, bpp, x, y, w, h, t) && k < |buf|
    requires forall px: nat, py: nat :: OnFrame(px, py, x, y, w, h, t) ==> !InWindow(k, PixelIndex(width, bpp, px, py))
    ensures Outline(buf, width, bpp, x, y, w, h, t, c)[k] == buf[k]
  {
    StripsFit(|buf|, width, bpp, x, y, w, h, t);
    var s := Strips(x, y, w, h, t);
    forall i, px: nat, py: nat | 0 <= i < |s| && InArea(px, py, s[i])
      ensures !InWindow(k, PixelIndex(width, bpp, px, py))
    {
      StripsCoverFrame(px, py, x, y, w, h, t);
      assert i == 0 || i == 1 || i == 2 || i == 3;
      assert OnFrame(px, py, x, y, w, h, t);
    }
    FillAreasFrame(buf, width, bpp, s, c, k);
  }

  /**
   * Off the frame nothing changes: when the rectangle lies within the row width,
   * no byte of a pixel that is not on the frame is written.
   */
  lemma OutlineKeepsOffFrame(buf: seq<u8>, width: nat, bpp: nat, x: nat, y: nat, w: nat, h: nat, t: nat, c: Color,
                             px: nat, py: nat, j: nat)
    requires 3 <= bpp && OutlineFits(|buf|, width, bpp, x, y, w, h, t)
    requires x + w <= width && px < width && !OnFrame(px, py, x, y, w, h, t)
    requires j < bpp && PixelIndex(width, bpp, px, py) + j < |buf|
    ensures Outline(buf, width, bpp, x, y, w, h, t, c)[PixelIndex(width, bpp, px, py) + j]
         == buf[PixelIndex(width, bpp, px, py) + j]
  {
    forall qx: nat, qy: nat | OnFrame(qx, qy, x, y, w, h, t)
      ensures !InWindow(PixelIndex(width, bpp, px, py) + j, PixelIndex(width, bpp, qx, qy))
    {
      IndexInjective(width, bpp, px, py, qx, qy);
      OutsideWindow(width, bpp, px, py, j, qx, qy);
    }
    OutlineFrame(buf, width, bpp, x, y, w, h, t, c, PixelIndex(width, bpp, px, py) + j);
  }

  /** Off the frame, within the row width, a pixel keeps the colour it had. */
  lemma OutlineKeepsColourOffFrame(buf: seq<u8>, width: nat, bpp: nat, x: nat, y: nat, w: nat, h: nat, t: nat,
                                   c: Color, px: nat, py: nat, old_c: Color)
    requires 3 <= bpp && OutlineFits(|buf|, width, bpp, x, y, w, h, t)
    requires x + w <= width && px < width && !OnFrame(px, py, x, y, w, h, t)
    requires HasColour(buf, PixelIndex(width, bpp, px, py), old_c)
    ensures HasColour(Outline(buf, width, bpp, x, y, w, h, t, c), PixelIndex(width, bpp, px, py), old_c)
  {
    OutlineKeepsOffFrame(buf, width, bpp, x, y, w, h, t, c, px, py, 0);
    OutlineKeepsOffFrame(buf, width, bpp, x, y, w, h, t, c, px, py, 1);
    OutlineKeepsOffFrame(buf, width, bpp, x, y, w, h, t, c, px, py, 2);
  }

  /** With four bytes per pixel the fourth byte of a pixel is never written by the outline. */
  lemma OutlineKeepsPadding(buf: seq<u8>, width: nat, bpp: nat, x: nat, y: nat, w: nat, h: nat, t: nat, c: Color,
                            px: nat, py: nat, j: nat)
    requires OutlineFits(|buf|, width, bpp, x, y, w, h, t)
    requires 3 <= j < bpp && PixelIndex(width, bpp, px, py) + j < |buf|
    ensures Outline(buf, width, bpp, x, y, w, h, t, c)[PixelIndex(width, bpp, px, py) + j]
         == buf[PixelIndex(width, bpp, px, py) + j]
  {
    forall qx: nat, qy: nat | OnFrame(qx, qy, x, y, w, h, t)
      ensures !InWindow(PixelIndex(width, bpp, px, py) + j, PixelIndex(width, bpp, qx, qy))
    {
      OutsideWindow(width, bpp, px, py, j, qx, qy);
    }
    OutlineFrame(buf, width, bpp, x, y, w, h, t, c, PixelIndex(width, bpp, px, py) + j);
  }

  /** Four strip fills, chained in the order top, right, left, bottom, draw the outline. */
  lemma OutlineSteps(buf: seq<u8>, width: nat, bpp: nat, x: nat, y: nat, w: nat, h: nat, t: nat, c: Color,
                     b1: seq<u8>, b2: seq<u8>, b3: seq<u8>, b4: seq<u8>)
    requires OutlineFits(|buf|, width, bpp, x, y, w, h, t)
    requires |b1| == |b2| == |b3| == |buf|
    requires RectFits(|buf|, width, bpp, x, y, w, t) && b1 == FillRows(buf, width, bpp, x, y, w, t, c)
    requires RectFits(|buf|, width, bpp, x + w - t, y, t, h - t) && b2 == FillRows(b1, width, bpp, x + w - t, y, t, h - t, c)
    requires RectFits(|buf|, width, bpp, x, y + t, t, h - t) && b3 == FillRows(b2, width, bpp, x, y + t, t, h - t, c)
    requires RectFits(|buf|, width, bpp, x + t, y + h - t, w - t, t) && b4 == FillRows(b3, width, bpp, x + t, y + h - t, w - t, t, c)
    ensures b4 == Outline(buf, width, bpp, x, y, w, h, t, c)
  {
    OutlineUnfold(buf, width, bpp, x, y, w, h, t, c);
  }

  /** The outline is the four fills of the strips, one after another. */
  lemma OutlineUnfold(buf: seq<u8>, width: nat, bpp: nat, x: nat, y: nat, w: nat, h: nat, t: nat, c: Color)
    requires OutlineFits(|buf|, width, bpp, x, y, w, h, t)
    ensures RectFits(|buf|, width, bpp, x, y, w, t)
    ensures RectFits(|buf|, width, bpp, x + w - t, y, t, h - t)
    ensures RectFits(|buf|, width, bpp, x, y + t, t, h - t)
    ensures RectFits(|buf|, width, bpp, x + t, y + h - t, w - t, t)
    ensures Outline(buf, width, bpp, x, y, w, h, t, c)
         == FillRows(FillRows(FillRows(FillRows(buf, width, bpp, x, y, w, t, c),
                                       width, bpp, x + w - t, y, t, h - t, c),
                              width, bpp, x, y + t, t, h - t, c),
                     width, bpp, x + t, y + h - t, w - t, t, c)
  {
    StripsFit(|buf|, width, bpp, x, y, w, h, t);
    var s := Strips(x, y, w, h, t);
    assert RectFits(|buf|, width, bpp, s[0].x, s[0].y, s[0].w, s[0].h);
    assert RectFits(|buf|, width, bpp, s[1].x, s[1].y, s[1].w, s[1].h);
    assert RectFits(|buf|, width, bpp, s[2].x, s[2].y, s[2].w, s[2].h);
    assert RectFits(|buf|, width, bpp, s[3].x, s[3].y, s[3].w, s[3].h);
    var b1 := FillRows(buf, width, bpp, x, y, w, t, c);
    var b2 := FillRows(b1, width, bpp, x + w - t, y, t, h - t, c);
    var b3 := FillRows(b2, width, bpp, x, y + t, t, h - t, c);
    var b4 := FillRows(b3, width, bpp, x + t, y + h - t, w - t, t, c);
    AreasFitTail(buf, width, bpp, s, c);
    AreasFitTail(b1, width, bpp, s[1..], c);
    AreasFitTail(b2, width, bpp, s[2..], c);
    AreasFitTail(b3, width, bpp, s[3..], c);
    assert s[1..][0] == s[1] && s[2..][0] == s[2] && s[3..][0] == s[3];
    assert s[1..][1..] == s[2..] && s[2..][1..] == s[3..] && s[3..][1..] == [];
    assert FillAreas(b3, width, bpp, s[3..], c) == b4;
    assert FillAreas(b2, width, bpp, s[2..], c) == b4;
    assert FillAreas(b1, width, bpp, s[1..], c) == b4;
  }

  // ---------------------------------------------------------------------------
  // Circle fill: for each row offset ly < r, a span on row cy + ly and on row cy - ly

  /** Both last pixels of a two-row span are inside the buffer. */
  predicate PairFits(len: nat, width: nat, bpp: nat, x0: nat, y1: nat, y2: nat, n: nat)
  {
    n == 0 || (PixelIndex(width, bpp, x0 + n - 1, y1) + 2 < len && PixelIndex(width, bpp, x0 + n - 1, y2) + 2 < len)
  }

  /**
   * Row offset ly with half-width lx: the span starts at cx - lx >= 0, row
   * cy - ly >= 0 exists, and the last pixel of the lower row is inside.
   */
  predicate RowFits(len: nat, width: nat, bpp: nat, cx: nat, cy: nat, lx: nat, ly: nat)
  {
    lx <= cx && ly <= cy && (lx > 0 ==> PixelIndex(width, bpp, cx + lx - 1, cy + ly) + 2 < len)
  }

  /** Every row offset below n fits. */
  predicate CircleFits(len: nat, width: nat, bpp: nat, cx: nat, cy: nat, r: nat, halfWidth: (nat, nat) -> nat, n: nat)
  {
    forall ly: nat {:trigger RowFits(len, width, bpp, cx, cy, halfWidth(r, ly), ly)} ::
      ly < n ==> RowFits(len, width, bpp, cx, cy, halfWidth(r, ly), ly)
  }

  /** Row offset ly of a fitting circle fits. */
  lemma CircleRowFits(len: nat, width: nat, bpp: nat, cx: nat, cy: nat, r: nat, halfWidth: (nat, nat) -> nat,
                      n: nat, ly: nat)
    requires ly < n && CircleFits(len, width, bpp, cx, cy, r, halfWidth, n)
    ensures RowFits(len, width, bpp, cx, cy, halfWidth(r, ly), ly)
  {
  }

  lemma CircleFitsPrefix(len: nat, width: nat, bpp: nat, cx: nat, cy: nat, r: nat, halfWidth: (nat, nat) -> nat,
                         n: nat, m: nat)
    requires m <= n && CircleFits(len, width, bpp, cx, cy, r, halfWidth, n)
    ensures CircleFits(len, width, bpp, cx, cy, r, halfWidth, m)
  {
  }

  lemma PairFitsPrefix(len: nat, width: nat, bpp: nat, x0: nat, y1: nat, y2: nat, n: nat, m: nat)
    requires m <= n && PairFits(len, width, bpp, x0, y1, y2, n)
    ensures PairFits(len, width, bpp, x0, y1, y2, m)
  {
    if m > 0 {
      IndexMonotone(width, bpp, x0 + m - 1, y1, x0 + n - 1, y1);
      IndexMonotone(width, bpp, x0 + m - 1, y2, x0 + n - 1, y2);
    }
  }

  lemma RowFitsPair(len: nat, width: nat, bpp: nat, cx: nat, cy: nat, lx: nat, ly: nat)
    requires RowFits(len, width, bpp, cx, cy, lx, ly)
    ensures PairFits(len, width, bpp, cx - lx, cy + ly, cy - ly, 2 * lx)
  {
    if lx > 0 {
      IndexMonotone(width, bpp, cx + lx - 1, cy - ly, cx + lx - 1, cy + ly);
    }
  }

  /** Paints pixels x0 .. x0+n-1 of row y1 and of row y2, alternating, left to right. */
  function PairSpan(buf: seq<u8>, width: nat, bpp: nat, x0: nat, y1: nat, y2: nat, n: nat, c: Color): (r: seq<u8>)
    requires PairFits(|buf|, width, bpp, x0, y1, y2, n)
    ensures |r| == |buf|
  {
    if n == 0 then buf
    else
      PairFitsPrefix(|buf|, width, bpp, x0, y1, y2, n, n - 1);
      var prev := PairSpan(buf, width, bpp, x0, y1, y2, n - 1, c);
      PutPixel(PutPixel(prev, PixelIndex(width, bpp, x0 + n - 1, y1), c), PixelIndex(width, bpp, x0 + n - 1, y2), c)
  }

  /** One step of PairSpan: column x0 + n is painted on both rows over the first n columns. */
  lemma PairSpanStep(buf: seq<u8>, width: nat, bpp: nat, x0: nat, y1: nat, y2: nat, n: nat, c: Color)
    requires PairFits(|buf|, width, bpp, x0, y1, y2, n + 1)
    ensures PairFits(|buf|, width, bpp, x0, y1, y2, n)
    ensures PixelIndex(width, bpp, x0 + n, y1) + 2 < |buf| && PixelIndex(width, bpp, x0 + n, y2) + 2 < |buf|
    ensures PairSpan(buf, width, bpp, x0, y1, y2, n + 1, c)
         == PutPixel(PutPixel(PairSpan(buf, width, bpp, x0, y1, y2, n, c), PixelIndex(width, bpp, x0 + n, y1), c),
                     PixelIndex(width, bpp, x0 + n, y2), c)
  {
    PairFitsPrefix(|buf|, width, bpp, x0, y1, y2, n + 1, n);
  }

  /** Paints the spans of row offsets 0 .. n-1 of the circle of radius r. */
  function CircleRows(buf: seq<u8>, width: nat, bpp: nat, cx: nat, cy: nat, r: nat, halfWidth: (nat, nat) -> nat,
                      n: nat, c: Color): (res: seq<u8>)
    requires CircleFits(|buf|, width, bpp, cx, cy, r, halfWidth, n)
    ensures |res| == |buf|
  {
    if n == 0 then buf
    else
      var ly := n - 1;
      var lx := halfWidth(r, ly);
      assert RowFits(|buf|, width, bpp, cx, cy, lx, ly);
      RowFitsPair(|buf|, width, bpp, cx, cy, lx, ly);
      PairSpan(CircleRows(buf, width, bpp, cx, cy, r, halfWidth, n - 1, c), width, bpp, cx - lx, cy + ly, cy - ly, 2 * lx, c)
  }

  /** One step of CircleRows: row offset m is drawn over the earlier rows, its span given by name. */
  lemma CircleRowsStep(buf: seq<u8>, width: nat, bpp: nat, cx: nat, cy: nat, r: nat, halfWidth: (nat, nat) -> nat,
                       m: nat, c: Color, x0: nat, y1: nat, y2: nat, len: nat)
    requires CircleFits(|buf|, width, bpp, cx, cy, r, halfWidth, m + 1)
    requires x0 + halfWidth(r, m) == cx && y1 == cy + m && y2 + m == cy && len == 2 * halfWidth(r, m)
    ensures CircleFits(|buf|, width, bpp, cx, cy, r, halfWidth, m)
    ensures PairFits(|buf|, width, bpp, x0, y1, y2, len)
    ensures CircleRows(buf, width, bpp, cx, cy, r, halfWidth, m + 1, c)
         == PairSpan(CircleRows(buf, width, bpp, cx, cy, r, halfWidth, m, c), width, bpp, x0, y1, y2, len, c)
  {
    CircleRowFits(|buf|, width, bpp, cx, cy, r, halfWidth, m + 1, m);
    RowFitsPair(|buf|, width, bpp, cx, cy, halfWidth(r, m), m);
    CircleFitsPrefix(|buf|, width, bpp, cx, cy, r, halfWidth, m + 1, m);
  }

  /** The last row pair of CircleRows, with its span given by name. */
  lemma CircleRowsUnfold(buf: seq<u8>, width: nat, bpp: nat, cx: nat, cy: nat, r: nat, halfWidth: (nat, nat) -> nat,
                         n: nat, c: Color, x0: nat, y1: nat, y2: nat, len: nat)
    requires n > 0 && CircleFits(|buf|, width, bpp, cx, cy, r, halfWidth, n)
    requires x0 + halfWidth(r, n - 1) == cx && y1 == cy + (n - 1) && y2 + (n - 1) == cy && len == 2 * halfWidth(r, n - 1)
    ensures CircleFits(|buf|, width, bpp, cx, cy, r, halfWidth, n - 1)
    ensures PairFits(|buf|, width, bpp, x0, y1, y2, len)
    ensures CircleRows(buf, width, bpp, cx, cy, r, halfWidth, n, c)
         == PairSpan(CircleRows(buf, width, bpp, cx, cy, r, halfWidth, n - 1, c), width, bpp, x0, y1, y2, len, c)
  {
    CircleRowFits(|buf|, width, bpp, cx, cy, r, halfWidth, n, n - 1);
    RowFitsPair(|buf|, width, bpp, cx, cy, halfWidth(r, n - 1), n - 1);
    CircleFitsPrefix(|buf|, width, bpp, cx, cy, r, halfWidth, n, n - 1);
  }

  /** Pixel (px, py) is on one of the spans of row offsets below n. */
  predicate InCircleSpans(px: int, py: int, cx: nat, cy: nat, r: nat, halfWidth: (nat, nat) -> nat, n: nat)
  {
    || (cy <= py < cy + n && cx - halfWidth(r, py - cy) <= px < cx + halfWidth(r, py - cy))
    || (cy - n < py <= cy && cx - halfWidth(r, cy - py) <= px < cx + halfWidth(r, cy - py))
  }

  lemma {:induction false} PairSpanKeeps(buf: seq<u8>, width: nat, bpp: nat, x0: nat, y1: nat, y2: nat, n: nat, c: Color,
                                         qx: nat, qy: nat)
    requires 3 <= bpp && PairFits(|buf|, width, bpp, x0, y1, y2, n)
    requires HasColour(buf, PixelIndex(width, bpp, qx, qy), c)
    ensures HasColour(PairSpan(buf, width, bpp, x0, y1, y2, n, c), PixelIndex(width, bpp, qx, qy), c)
  {
    if n > 0 {
      PairFitsPrefix(|buf|, width, bpp, x0, y1, y2, n, n - 1);
      PairSpanKeeps(buf, width, bpp, x0, y1, y2, n - 1, c, qx, qy);
      var prev := PairSpan(buf, width, bpp, x0, y1, y2, n - 1, c);
      PutPixelKeeps(prev, width, bpp, x0 + n - 1, y1, qx, qy, c);
      PutPixelKeeps(PutPixel(prev, PixelIndex(width, bpp, x0 + n - 1, y1), c), width, bpp, x0 + n - 1, y2, qx, qy, c);
    }
  }

  lemma {:induction false} PairSpanColours(buf: seq<u8>, width: nat, bpp: nat, x0: nat, y1: nat, y2: nat, n: nat, c: Color,
                                           px: nat, py: nat)
    requires 3 <= bpp && PairFits(|buf|, width, bpp, x0, y1, y2, n)
    requires x0 <= px < x0 + n && (py == y1 || py == y2)
    ensures HasColour(PairSpan(buf, width, bpp, x0, y1, y2, n, c), PixelIndex(width, bpp, px, py), c)
  {
    PairFitsPrefix(|buf|, width, bpp, x0, y1, y2, n, n - 1);
    var x := x0 + n - 1;
    var prev := PairSpan(buf, width, bpp, x0, y1, y2, n - 1, c);
    var mid := PutPixel(prev, PixelIndex(width, bpp, x, y1), c);
    if px < x {
      PairSpanColours(buf, width, bpp, x0, y1, y2, n - 1, c, px, py);
      PutPixelKeeps(prev, width, bpp, x, y1, px, py, c);
      PutPixelKeeps(mid, width, bpp, x, y2, px, py, c);
    } else if py == y2 {
      PutPixelPaints(mid, PixelIndex(width, bpp, x, y2), c);
    } else {
      PutPixelPaints(prev, PixelIndex(width, bpp, x, y1), c);
      PutPixelKeeps(mid, width, bpp, x, y2, px, py, c);
    }
  }

  lemma {:induction false} PairSpanFrame(buf: seq<u8>, width: nat, bpp: nat, x0: nat, y1: nat, y2: nat, n: nat, c: Color,
                                         k: nat)
    requires PairFits(|buf|, width, bpp, x0, y1, y2, n) && k < |buf|
    requires forall px: nat :: x0 <= px < x0 + n ==> !InWindow(k, PixelIndex(width, bpp, px, y1))
    requires forall px: nat :: x0 <= px < x0 + n ==> !InWindow(k, PixelIndex(width, bpp, px, y2))
    ensures PairSpan(buf, width, bpp, x0, y1, y2, n, c)[k] == buf[k]
  {
    if n > 0 {
      PairFitsPrefix(|buf|, width, bpp, x0, y1, y2, n, n - 1);
      PairSpanFrame(buf, width, bpp, x0, y1, y2, n - 1, c, k);
      assert !InWindow(k, PixelIndex(width, bpp, x0 + n - 1, y1));
      assert !InWindow(k, PixelIndex(width, bpp, x0 + n - 1, y2));
    }
  }

  lemma {:induction false} CircleRowsKeeps(buf: seq<u8>, width: nat, bpp: nat, cx: nat, cy: nat, r: nat,
                                           halfWidth: (nat, nat) -> nat, n: nat, c: Color, qx: nat, qy: nat)
    requires 3 <= bpp && CircleFits(|buf|, width, bpp, cx, cy, r, halfWidth, n)
    requires HasColour(buf, PixelIndex(width, bpp, qx, qy), c)
    ensures HasColour(CircleRows(buf, width, bpp, cx, cy, r, halfWidth, n, c), PixelIndex(width, bpp, qx, qy), c)
  {
    if n > 0 {
      var lx := halfWidth(r, n - 1);
      CircleRowFits(|buf|, width, bpp, cx, cy, r, halfWidth, n, n - 1);
      var x0, y1, y2 := cx - lx, cy + (n - 1), cy - (n - 1);
      CircleRowsUnfold(buf, width, bpp, cx, cy, r, halfWidth, n, c, x0, y1, y2, 2 * lx);
      CircleRowsKeeps(buf, width, bpp, cx, cy, r, halfWidth, n - 1, c, qx, qy);
      PairSpanKeeps(CircleRows(buf, width, bpp, cx, cy, r, halfWidth, n - 1, c), width, bpp,
                    x0, y1, y2, 2 * lx, c, qx, qy);
    }
  }


  /**
   * After the rows below n are drawn, for each row offset ly < n the pixels
   * cx - lx .. cx + lx - 1 of rows cy + ly and cy - ly have the colour, where
   * lx is the half-width of that row.
   */
  lemma {:induction false} CircleRowsColours(buf: seq<u8>, width: nat, bpp: nat, cx: nat, cy: nat, r: nat,
                                             halfWidth: (nat, nat) -> nat, n: nat, c: Color, ly: nat, px: nat, py: nat)
    requires 3 <= bpp && CircleFits(|buf|, width, bpp, cx, cy, r, halfWidth, n)
    requires ly < n && cx - halfWidth(r, ly) <= px < cx + halfWidth(r, ly)
    requires py == cy + ly || py + ly == cy
    ensures HasColour(CircleRows(buf, width, bpp, cx, cy, r, halfWidth, n, c), PixelIndex(width, bpp, px, py), c)
  {
    var m := n - 1;
    var lx := halfWidth(r, m);
    CircleRowFits(|buf|, width, bpp, cx, cy, r, halfWidth, n, m);
    var x0, y1, y2 := cx - lx, cy + m, cy - m;
    CircleRowsUnfold(buf, width, bpp, cx, cy, r, halfWidth, n, c, x0, y1, y2, 2 * lx);
    var prev := CircleRows(buf, width, bpp, cx, cy, r, halfWidth, m, c);
    if ly == m {
      PairSpanColours(prev, width, bpp, x0, y1, y2, 2 * lx, c, px, py);
    } else {
      CircleRowsColours(buf, width, bpp, cx, cy, r, halfWidth, m, c, ly, px, py);
      PairSpanKeeps(prev, width, bpp, x0, y1, y2, 2 * lx, c, px, py);
    }
  }

  /** A byte outside the colour bytes of every span pixel is unchanged. */
  lemma {:induction false} CircleRowsFrame(buf: seq<u8>, width: nat, bpp: nat, cx: nat, cy: nat, r: nat,
                                           halfWidth: (nat, nat) -> nat, n: nat, c: Color, k: nat)
    requires CircleFits(|buf|, width, bpp, cx, cy, r, halfWidth, n) && k < |buf|
    requires forall px: nat, py: nat :: InCircleSpans(px, py, cx, cy, r, halfWidth, n)
               ==> !InWindow(k, PixelIndex(width, bpp, px, py))
    ensures CircleRows(buf, width, bpp, cx, cy, r, halfWidth, n, c)[k] == buf[k]
  {
    if n > 0 {
      var lx := halfWidth(r, n - 1);
      CircleRowFits(|buf|, width, bpp, cx, cy, r, halfWidth, n, n - 1);
      var x0, y1, y2 := cx - lx, cy + (n - 1), cy - (n - 1);
      CircleRowsUnfold(buf, width, bpp, cx, cy, r, halfWidth, n, c, x0, y1, y2, 2 * lx);
      forall px: nat, py: nat | InCircleSpans(px, py, cx, cy, r, halfWidth, n - 1)
        ensures !InWindow(k, PixelIndex(width, bpp, px, py))
      {
        assert InCircleSpans(px, py, cx, cy, r, halfWidth, n);
      }
      CircleRowsFrame(buf, width, bpp, cx, cy, r, halfWidth, n - 1, c, k);
      forall px: nat | x0 <= px < x0 + 2 * lx
        ensures !InWindow(k, PixelIndex(width, bpp, px, y1))
        ensures !InWindow(k, PixelIndex(width, bpp, px, y2))
      {
        assert InCircleSpans(px, y1, cx, cy, r, halfWidth, n);
        assert InCircleSpans(px, y2, cx, cy, r, halfWidth, n);
      }
      PairSpanFrame(CircleRows(buf, width, bpp, cx, cy, r, halfWidth, n - 1, c), width, bpp,
                    x0, y1, y2, 2 * lx, c, k);
    }
  }


  /** The half-width never exceeds the radius. */
  predicate HalfWidthBounded(r: nat, halfWidth: (nat, nat) -> nat)
  {
    forall ly: nat :: ly < r ==> halfWidth(r, ly) <= r
  }

  /**
   * The rows cy + r and cy - r (the poles) are never written: when the circle
   * lies within the row width, no byte of a pixel on those rows changes.
   */
  lemma CirclePolesUntouched(buf: seq<u8>, width: nat, bpp: nat, cx: nat, cy: nat, r: nat,
                             halfWidth: (nat, nat) -> nat, c: Color, px: nat, py: nat, j: nat)
    requires 3 <= bpp && CircleFits(|buf|, width, bpp, cx, cy, r, halfWidth, r)
    requires HalfWidthBounded(r, halfWidth) && cx + r <= width
    requires px < width && (py == cy + r || py + r == cy)
    requires j < bpp && PixelIndex(width, bpp, px, py) + j < |buf|
    ensures CircleRows(buf, width, bpp, cx, cy, r, halfWidth, r, c)[PixelIndex(width, bpp, px, py) + j]
         == buf[PixelIndex(width, bpp, px, py) + j]
  {
    forall qx: nat, qy: nat | InCircleSpans(qx, qy, cx, cy, r, halfWidth, r)
      ensures !InWindow(PixelIndex(width, bpp, px, py) + j, PixelIndex(width, bpp, qx, qy))
    {
      if cy <= qy < cy + r {
        assert halfWidth(r, qy - cy) <= r;
      } else {
        assert halfWidth(r, cy - qy) <= r;
      }
      IndexInjective(width, bpp, px, py, qx, qy);
      OutsideWindow(width, bpp, px, py, j, qx, qy);
    }
    CircleRowsFrame(buf, width, bpp, cx, cy, r, halfWidth, r, c, PixelIndex(width, bpp, px, py) + j);
  }

  /**
   * Off the spans nothing changes: when no span reaches past the row width, no
   * byte of a pixel that is on none of the spans of row offsets below n is written.
   */
  lemma CircleRowsKeepsOffSpans(buf: seq<u8>, width: nat, bpp: nat, cx: nat, cy: nat, r: nat,
                                halfWidth: (nat, nat) -> nat, n: nat, c: Color, px: nat, py: nat, j: nat)
    requires 3 <= bpp && CircleFits(|buf|, width, bpp, cx, cy, r, halfWidth, n)
    requires HalfWidthBounded(r, halfWidth) && n <= r && cx + r <= width
    requires px < width && !InCircleSpans(px, py, cx, cy, r, halfWidth, n)
    requires j < bpp && PixelIndex(width, bpp, px, py) + j < |buf|
    ensures CircleRows(buf, width, bpp, cx, cy, r, halfWidth, n, c)[PixelIndex(width, bpp, px, py) + j]
         == buf[PixelIndex(width, bpp, px, py) + j]
  {
    forall qx: nat, qy: nat | InCircleSpans(qx, qy, cx, cy, r, halfWidth, n)
      ensures !InWindow(PixelIndex(width, bpp, px, py) + j, PixelIndex(width, bpp, qx, qy))
    {
      if cy <= qy < cy + n {
        assert halfWidth(r, qy - cy) <= r;
      } else {
        assert halfWidth(r, cy - qy) <= r;
      }
      IndexInjective(width, bpp, px, py, qx, qy);
      OutsideWindow(width, bpp, px, py, j, qx, qy);
    }
    CircleRowsFrame(buf, width, bpp, cx, cy, r, halfWidth, n, c, PixelIndex(width, bpp, px, py) + j);
  }

  /** With four bytes per pixel the fourth byte of a pixel is never written by the circle. */
  lemma CircleRowsKeepsPadding(buf: seq<u8>, width: nat, bpp: nat, cx: nat, cy: nat, r: nat,
                               halfWidth: (nat, nat) -> nat, n: nat, c: Color, px: nat, py: nat, j: nat)
    requires CircleFits(|buf|, width, bpp, cx, cy, r, halfWidth, n)
    requires 3 <= j < bpp && PixelIndex(width, bpp, px, py) + j < |buf|
    ensures CircleRows(buf, width, bpp, cx, cy, r, halfWidth, n, c)[PixelIndex(width, bpp, px, py) + j]
         == buf[PixelIndex(width, bpp, px, py) + j]
  {
    forall qx: nat, qy: nat | InCircleSpans(qx, qy, cx, cy, r, halfWidth, n)
      ensures !InWindow(PixelIndex(width, bpp, px, py) + j, PixelIndex(width, bpp, qx, qy))
    {
      OutsideWindow(width, bpp, px, py, j, qx, qy);
    }
    CircleRowsFrame(buf, width, bpp, cx, cy, r, halfWidth, n, c, PixelIndex(width, bpp, px, py) + j);
  }

  // ---------------------------------------------------------------------------
  // Linear facts about the address translation

  /** The offset is the row-major product (width * y + x) * bpp. */
  lemma IndexIsProduct(width: nat, bpp: nat, x: nat, y: nat)
    ensures PixelIndex(width, bpp, x, y) == (width * y + x) * bpp
  {
    MulIsProduct(y, width);
    MulIsProduct(width * y + x, bpp);
  }

  lemma IndexAtOrigin(width: nat, bpp: nat)
    ensures PixelIndex(width, bpp, 0, 0) == 0
  {
  }

  /** One pixel to the right is bpp bytes further. */
  lemma IndexStepX(width: nat, bpp: nat, x: nat, y: nat)
    ensures PixelIndex(width, bpp, x + 1, y) == PixelIndex(width, bpp, x, y) + bpp
  {
  }

  /** One row down is width * bpp bytes further. */
  lemma IndexStepY(width: nat, bpp: nat, x: nat, y: nat)
    ensures PixelIndex(width, bpp, x, y + 1) == PixelIndex(width, bpp, x, y) + width * bpp
  {
    MulAdd(Mul(y, width) + x, width, bpp);
    MulIsProduct(width, bpp);
  }

  /** There is no check against the width: column `width` of a row aliases column 0 of the next. */
  lemma IndexUnchecked(width: nat, bpp: nat, x: nat, y: nat)
    ensures PixelIndex(width, bpp, width + x, y) == PixelIndex(width, bpp, x, y + 1)
  {
  }
}
