/**
 * The fixed scene that `main` of src/main.rs draws before encoding the image:
 * a 512 x 512 RGB buffer, a dark red filled circle of radius 255 centred at
 * (256, 256), then a white outline of thickness 20 around the rectangle at
 * (75, 75) of size 360 x 360. The rounding square root that gives each circle
 * row its half-width is a parameter, as in `Draw.PixelBuffer.DrawCircle`; the
 * lemmas about the image hold for any half-widths bounded by the radius.
 */
module Demo {
  import opened Shapes
  import opened Raster
  import opened Draw

  const Side: nat := 512
  const Bytes: nat := 3 * 512 * 512
  const Red: Color := Color(125, 0, 0)
  const White: Color := Color(255, 255, 255)

  /** The buffer `with_size` creates: every byte zero. */
  function Blank(): seq<u8>
  {
    seq(Bytes, _ => 0)
  }

  /** The circle fits the buffer: no row offset or span leaves it, and its `u32` arithmetic does not overflow. */
  lemma DemoCircleInBounds(halfWidth: (nat, nat) -> nat)
    requires HalfWidthBounded(255, halfWidth)
    ensures CircleOk(Bytes, Side, 3, 256, 256, 255, halfWidth)
  {
    IndexIsProduct(Side, 3, 510, 510);
    forall ly: nat | ly < 255
      ensures RowFits(Bytes, Side, 3, 256, 256, halfWidth(255, ly), ly)
    {
      var lx := halfWidth(255, ly);
      assert lx <= 255;
      if lx > 0 {
        IndexMonotone(Side, 3, 256 + lx - 1, 256 + ly, 510, 510);
      }
    }
  }

  /** Every span of the circle lies within columns 1 .. 510 and every row offset within rows 2 .. 510. */
  lemma DemoCircleSpansInside(halfWidth: (nat, nat) -> nat, ly: nat)
    requires HalfWidthBounded(255, halfWidth) && ly < 255
    ensures 1 <= 256 - halfWidth(255, ly) && 256 + halfWidth(255, ly) <= 511
    ensures 2 <= 256 - ly && 256 + ly <= 510
  {
  }

  /** The outline fits the buffer: its largest pixel coordinate is 434 on both axes. */
  lemma DemoOutlineInBounds()
    ensures OutlineOk(Bytes, Side, 3, 75, 75, 360, 360, 20)
    ensures 75 + 360 - 1 == 434 < Side
  {
    IndexIsProduct(Side, 3, 434, 434);
  }

  /** Every byte of every pixel of the 512 x 512 image is inside the buffer. */
  lemma DemoIndexInBounds(px: nat, py: nat, j: nat)
    requires px < Side && py < Side && j < 3
    ensures PixelIndex(Side, 3, px, py) + j < Bytes
  {
    IndexMonotone(Side, 3, px, py, 511, 511);
    IndexIsProduct(Side, 3, 511, 511);
  }

  /** The circle's rows all fit the buffer. */
  predicate DemoCircleFits(halfWidth: (nat, nat) -> nat)
  {
    CircleFits(Bytes, Side, 3, 256, 256, 255, halfWidth, 255)
  }

  /** The bytes of the scene: the circle over a zeroed buffer, then the outline over that. */
  ghost function DemoImage(halfWidth: (nat, nat) -> nat): (img: seq<u8>)
    requires HalfWidthBounded(255, halfWidth)
    ensures |img| == Bytes
  {
    DemoCircleInBounds(halfWidth);
    DemoOutlineInBounds();
    var disc := CircleRows(Blank(), Side, 3, 256, 256, 255, halfWidth, 255, Red);
    Outline(disc, Side, 3, 75, 75, 360, 360, 20, White)
  }

  /** `main` up to the encoding: the buffer is created and the two shapes are drawn. */
  method DemoScene(root: nat -> nat) returns (pb: PixelBuffer)
    requires HalfWidthBounded(255, HalfWidths(root))
    ensures fresh(pb) && pb.Valid() && pb.colorSpace == RGB && pb.GetSize() == (Side, Side)
    ensures pb.buffer == DemoImage(HalfWidths(root))
    ensures pb.Access(raw => raw) == DemoImage(HalfWidths(root))
  {
    pb := new PixelBuffer.WithSize(512, 512, RGB);
    assert pb.buffer == Blank();
    var style := FillOnly(Color(125, 0, 0));
    var circle := new Circle(256, 256, 255);
    var rect := new Rect(75, 75, 510 - 150, 510 - 150);
    DemoCircleInBounds(HalfWidths(root));
    pb.DrawCircle(circle, style, root);
    style := OutlineOnly(Color(255, 255, 255), 20);
    DemoOutlineInBounds();
    pb.DrawRect(rect, style);
  }

  /** Every pixel of the frame of thickness 20 is white. */
  lemma DemoFrameWhite(halfWidth: (nat, nat) -> nat, px: nat, py: nat)
    requires HalfWidthBounded(255, halfWidth)
    requires OnFrame(px, py, 75, 75, 360, 360, 20)
    ensures HasColour(DemoImage(halfWidth), PixelIndex(Side, 3, px, py), White)
  {
    DemoCircleInBounds(halfWidth);
    DemoOutlineInBounds();
    var disc := CircleRows(Blank(), Side, 3, 256, 256, 255, halfWidth, 255, Red);
    OutlineColours(disc, Side, 3, 75, 75, 360, 360, 20, White, px, py);
  }

  /**
   * The centre pixel is red: the outline leaves the inside of the frame as the
   * circle painted it, provided the row through the centre is not empty.
   */
  lemma DemoCentreRed(halfWidth: (nat, nat) -> nat)
    requires HalfWidthBounded(255, halfWidth) && halfWidth(255, 0) > 0
    ensures HasColour(DemoImage(halfWidth), PixelIndex(Side, 3, 256, 256), Red)
  {
    DemoCircleInBounds(halfWidth);
    DemoOutlineInBounds();
    var disc := CircleRows(Blank(), Side, 3, 256, 256, 255, halfWidth, 255, Red);
    CircleRowsColours(Blank(), Side, 3, 256, 256, 255, halfWidth, 255, Red, 0, 256, 256);
    OutlineKeepsColourOffFrame(disc, Side, 3, 75, 75, 360, 360, 20, White, 256, 256, Red);
  }

  /** The circle leaves rows 1 and 511, its poles cy - r and cy + r, black. */
  lemma DemoDiscPoles(halfWidth: (nat, nat) -> nat, px: nat, py: nat, j: nat)
    requires HalfWidthBounded(255, halfWidth)
    requires px < Side && (py == 1 || py == 511) && j < 3
    ensures DemoCircleFits(halfWidth)
    ensures PixelIndex(Side, 3, px, py) + j < Bytes
    ensures CircleRows(Blank(), Side, 3, 256, 256, 255, halfWidth, 255, Red)[PixelIndex(Side, 3, px, py) + j] == 0
  {
    DemoCircleInBounds(halfWidth);
    DemoIndexInBounds(px, py, j);
    CirclePolesUntouched(Blank(), Side, 3, 256, 256, 255, halfWidth, Red, px, py, j);
  }

  /** Rows 1 and 511 stay black in the finished image: the circle skips them and the outline is far from them. */
  lemma DemoPoleRowsBlack(halfWidth: (nat, nat) -> nat, px: nat, py: nat, j: nat)
    requires HalfWidthBounded(255, halfWidth)
    requires px < Side && (py == 1 || py == 511) && j < 3
    ensures PixelIndex(Side, 3, px, py) + j < Bytes
    ensures DemoImage(halfWidth)[PixelIndex(Side, 3, px, py) + j] == 0
  {
    DemoDiscPoles(halfWidth, px, py, j);
    var disc := CircleRows(Blank(), Side, 3, 256, 256, 255, halfWidth, 255, Red);
    KeepsOffOutline(disc, px, py, j);
  }

  /** The outline leaves every byte of the first three of a pixel off the frame as it was. */
  lemma KeepsOffOutline(disc: seq<u8>, px: nat, py: nat, j: nat)
    requires |disc| == Bytes && px < Side && (py < 75 || py >= 435) && j < 3
    requires PixelIndex(Side, 3, px, py) + j < Bytes
    ensures OutlineFits(Bytes, Side, 3, 75, 75, 360, 360, 20)
    ensures Outline(disc, Side, 3, 75, 75, 360, 360, 20, White)[PixelIndex(Side, 3, px, py) + j]
         == disc[PixelIndex(Side, 3, px, py) + j]
  {
    DemoOutlineInBounds();
    OutlineKeepsOffFrame(disc, Side, 3, 75, 75, 360, 360, 20, White, px, py, j);
  }

  /** With the exact rounded square root, the row through the centre spans the whole diameter. */
  lemma ExactCentreRow()
    ensures HalfWidths(RoundSqrt)(255, 0) == 255
  {
    assert SquareDiff(255, 0) == 255 * 255;
    assert IsRoundedSqrt(255 * 255, 255);
    RoundedSqrtUnique(255 * 255, RoundSqrt(255 * 255), 255);
  }

  /** The scene drawn with the exact half-width has a red centre. */
  lemma ExactDemoCentreRed()
    ensures HalfWidthBounded(255, HalfWidths(RoundSqrt))
    ensures HasColour(DemoImage(HalfWidths(RoundSqrt)), PixelIndex(Side, 3, 256, 256), Red)
  {
    ExactHalfWidthBounded(255);
    ExactCentreRow();
    DemoCentreRed(HalfWidths(RoundSqrt));
  }

  /** With the exact rounded square root, the circle of the scene neither overflows `u32` nor writes past the buffer. */
  lemma ExactDemoCircleInBounds()
    ensures CircleOk(Bytes, Side, 3, 256, 256, 255, HalfWidths(RoundSqrt))
  {
    ExactHalfWidthBounded(255);
    DemoCircleInBounds(HalfWidths(RoundSqrt));
  }
}
