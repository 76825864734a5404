# draw-rs rasterizer, modelled in Dafny

draw-rs is a small software rasterizer. A `PixelBuffer` holds a row-major byte
image of `width` x `height` pixels: 3 bytes per pixel for RGB, 4 for CYMK and
RGBA. It draws two shapes into that image:

- **Rectangles:** a solid fill, or an outline of a given thickness made of four
  filled strips.
- **Circles:** a fill made of horizontal spans, one pair of spans per row offset
  from the centre.

The demo program builds a 512 x 512 RGB image. It draws a dark red disc, draws a
white square frame over it, and encodes the result as a PNG file.

The project has four modules:

- `Shapes` (`shapes.dfy`) covers src/shapes.rs:
  - `Vec2` and `Line` are datatypes.
  - `Rect` and `Circle` are classes, because their setters update fields in place.
  - The scalar type is instantiated with `u32`, a newtype over `0 .. 2^32 - 1`.
- `Raster` (`raster.dfy`) holds the specification of the pixel writes as
  functions of the old byte sequence, with the lemmas about them:
  - `FillSpan` and `FillRows` are the loops of the `_fill_rect` closure.
  - `Outline` is the four strips of an outline.
  - `PairSpan` and `CircleRows` are the loops of `draw_circle`.
  - The lemmas say which pixels end up with the colour and which bytes stay untouched.
  - `PixelIndex` is the byte offset that `index_at_point` computes.
- `Draw` (`draw.dfy`) covers src/draw.rs:
  - `ColorSpace`, `Style`, the bytes-per-pixel table and `Vec::resize`.
  - The class `PixelBuffer`, whose byte vector is a `seq<u8>` field. Its drawing
    methods rewrite it one byte at a time, with the source's nested loops.
  - Each drawing method is proved equal to the `Raster` function of the old buffer.
- `Demo` (`demo.dfy`) covers the scene that `main` in src/main.rs draws:
  - It proves, for any rounding square root whose half-widths are at most 255 (the exact `RoundSqrt` is one, `Draw.ExactHalfWidthBounded`),
    that every loop of the scene stays in bounds and never overflows `u32`.
  - It proves three facts about the finished image: every pixel of the frame is
    white, the centre pixel is red, and rows 1 and 511 are black.

The module `draw` inside src/main.rs (lines 9-196) is the same code as
src/draw.rs, shifted by ten lines. The table cites src/draw.rs.

The circle loop computes the `u32` value `r*r - ly*ly` and takes its half-width
as `(that as f32).sqrt().round()`. In the model, `Draw.PixelBuffer.DrawCircle`
computes the same `u32` value (`Draw.SquareGap`, which cannot underflow because
ly < r) and applies a parameter `root` to it, which stands for the `f32`
square root with rounding. The half-width of row offset ly is therefore
`HalfWidths(root)(r, ly)`. `DrawCircle` assumes nothing about `root` beyond the
`u32` and bounds conditions of `Draw.CircleOk`. The lemmas about which pixels
stay untouched assume in addition that every half-width is at most r
(`Raster.HalfWidthBounded`), and so does every lemma of `Demo` about the
circle: `Demo.DemoCircleInBounds`, `Demo.DemoCircleSpansInside`,
`Demo.DemoDiscPoles`, `Demo.DemoFrameWhite`, `Demo.DemoCentreRed`,
`Demo.DemoPoleRowsBlack` and `Demo.DemoScene`, with r = 255.
`Demo.ExactDemoCircleInBounds` and `Demo.ExactDemoCentreRed` discharge the bound
for the exact `RoundSqrt`. `Demo.DemoCentreRed` also assumes that the row
through the centre is not empty.

`Draw.RoundSqrt` is the rounding square root in exact integers: the nearest
integer to the square root. It is proved unique and proved to meet the bound
(`Draw.ExactHalfWidthBounded`), and `Demo.ExactDemoCentreRed` instantiates the
scene with it.

Behaviour of the code that the model keeps as it is:
- `resize` calls `Vec::resize`. It keeps the bytes already present, appends
  zeros, and never re-zeroes the buffer, so resizing to the current size
  changes nothing. It also leaves the recorded width and height unchanged, so
  after it `|buffer| == width * height * bytesPerPixel` can fail.
- `index_at_point` does not check x against the width. A rectangle that extends
  past the right edge does not fail: its pixels wrap into the following row
  (`Raster.IndexUnchecked`). Only a byte index past the end of the vector
  panics, and that is a precondition here.
- `move_by` computes the new y from the x it has just updated.
- The circle loop runs `ly` over `0 .. r - 1` only, so its spans lie on rows
  `cy - r + 1 .. cy + r - 1`. Rows `cy + r` and `cy - r` are therefore never written
  when every half-width is at most r and cx + r <= width
  (`Raster.CirclePolesUntouched`). Without the second condition a span can run
  past the right edge, wrap into the next row and reach a pole row.
- `FillAndOutline` draws nothing, and a circle drawn with `OutlineOnly` draws nothing.
- Only three colour bytes are written per pixel, also for CYMK and RGBA.
  The padding byte keeps its old value (the `*KeepsPadding` lemmas).

## Model

| member | source | states |
|---|---|---|
| Shapes.Between | src/shapes.rs:171-174 | the line runs from the first point to the second |
| Shapes.Rect.Null | src/shapes.rs:63-66 | position and size are all zero |
| Shapes.Rect.constructor | src/shapes.rs:68-71 | position and size are stored verbatim |
| Shapes.Rect.GetPos | src/shapes.rs:79-82 | returns the position fields x and y |
| Shapes.Rect.GetSize | src/shapes.rs:84-87 | returns the size fields width and height |
| Shapes.Rect.Resize | src/shapes.rs:73-77 | the size becomes the arguments; the position is kept |
| Shapes.Rect.SetPos | src/shapes.rs:89-93 | the position becomes the arguments; the size is kept |
| Shapes.Rect.SetXY | src/shapes.rs:95-99 | the position is translated by (dx, dy), with no u32 overflow allowed; the size is kept |
| Shapes.Rect.MoveBy | src/shapes.rs:101-105 | x' = x + dx and y' = x' + dy (y is computed from the new x); the size is kept |
| Shapes.Rect.ScaleHeight | src/shapes.rs:107-111 | height' = (height / den) * num, truncating division first; the den = 0 panic and u32 overflow are excluded |
| Shapes.Rect.ScaleWidth | src/shapes.rs:113-117 | width' = (width / den) * num; height and position are kept |
| Shapes.Rect.ScaleBy | src/shapes.rs:119-125 | both dimensions are scaled as above; the position is kept |
| Shapes.Rect.SetHeight | src/shapes.rs:127-130 | only the height changes |
| Shapes.Rect.SetWidth | src/shapes.rs:132-135 | only the width changes |
| Shapes.Circle.constructor | src/shapes.rs:142-145 | centre and radius are stored verbatim |
| Shapes.Circle.GetRadius | src/shapes.rs:147-150 | returns the radius field |
| Shapes.Circle.GetPos | src/shapes.rs:152-155 | returns the centre fields x and y |
| Shapes.Circle.SetRadius | src/shapes.rs:157-160 | only the radius changes |
| Shapes.Circle.SetPos | src/shapes.rs:162-166 | only the centre changes |
| Draw.BytesPerPixel | src/draw.rs:85-89 | 3 exactly for RGB and 4 exactly for CYMK and RGBA (the same table as lines 53-56 and 64-68) |
| Draw.ResizedBytes | src/draw.rs:70 | `Vec::resize`: the length becomes n, the first min(n, old length) bytes are kept and the added bytes equal the fill value |
| Draw.ResizeSameLength | src/draw.rs:70 | resizing to the current length leaves the bytes unchanged, not zeroed |
| Draw.ResizeGrowShrink | src/draw.rs:70 | growing and then shrinking back to the old length restores the original bytes |
| Draw.ResizeTwice | src/draw.rs:70 | resizing to n and then to m <= n is the same as resizing to m |
| Draw.OutlineStripsOk | src/draw.rs:138-144 | when the outline's u32 arithmetic and bounds are fine, each of the four strips is fine to fill |
| Draw.SquareGap | src/draw.rs:166 | the u32 subtraction r * r - ly * ly does not underflow when ly < r and r * r fits, and the value passed to the square root is the exact difference |
| Draw.HalfWidthAt | src/draw.rs:166-169 | the half-width of row offset ly < r is `root` applied to r * r - ly * ly |
| Draw.HalfWidthsBounded | src/draw.rs:166-169 | a rounding square root that maps 0 .. r * r into 0 .. r gives half-widths bounded by r |
| Draw.RoundSqrt | src/draw.rs:166-169 | the result k is sqrt(n) rounded to the nearest integer: (2k - 1)^2 <= 4n < (2k + 1)^2 |
| Draw.RoundedSqrtUnique | src/draw.rs:166-169 | only one natural number is the rounded square root of n |
| Draw.RoundSqrtAtMost | src/draw.rs:166-169 | the rounded square root of a number at most r * r is at most r |
| Draw.ExactHalfWidthBounded | src/draw.rs:166-169 | with the exact rounded square root, no half-width exceeds the radius, so they meet the bound the circle lemmas assume |
| Draw.PixelBuffer.ValidPixelSize | src/draw.rs:53-56 | a valid buffer has 3 or 4 bytes per pixel, so every pixel has room for the three colour bytes the drawing writes; 3 exactly for RGB |
| Draw.PixelBuffer.GetSize | src/draw.rs:73-76 | returns the recorded width and height |
| Draw.PixelBuffer.New | src/draw.rs:47-60 | a 0 x 0 buffer with no bytes; bytes per pixel match the colour space |
| Draw.PixelBuffer.WithSize | src/draw.rs:83-99 | the size is (width, height), the length is bytesPerPixel * width * height, and every byte is zero |
| Draw.PixelBuffer.Resize | src/draw.rs:62-71 | the bytes become `Vec::resize` of the old bytes to pixelSize * width * height, filled with 0; the recorded size is unchanged |
| Draw.PixelBuffer.Access | src/draw.rs:102-106 | the callback receives exactly the buffer's bytes; being a function it changes nothing |
| Draw.PixelBuffer.IndexAtPoint | src/draw.rs:78-81 | the result is (width * y + x) * bytesPerPixel, as `PixelIndex` |
| Draw.PixelBuffer.WritePixel | src/draw.rs:125-127 | bytes i, i + 1 and i + 2 become r, g and b; nothing else changes |
| Draw.PixelBuffer.PaintAt | src/draw.rs:124-127 | the pixel at (x, y) receives the colour |
| Draw.PixelBuffer.FillSpanAt | src/draw.rs:122-128 | the inner loop leaves the buffer equal to `FillSpan` of the old buffer: pixels x .. x + n - 1 of row y are painted left to right |
| Draw.PixelBuffer.FillRect | src/draw.rs:113-130 | the `_fill_rect` closure leaves the buffer equal to `FillRows` of the old buffer over the rectangle's rows |
| Draw.PixelBuffer.DrawOutline | src/draw.rs:134-149 | the buffer becomes `Outline` of the old one: the top, right, left and bottom strips filled in that order |
| Draw.PixelBuffer.DrawRect | src/draw.rs:111-152 | FillOnly gives `FillRows`, OutlineOnly gives `Outline`, and FillAndOutline leaves the buffer unchanged |
| Draw.PixelBuffer.FillRowPair | src/draw.rs:169-178 | the span loop leaves the buffer equal to `PairSpan`: each column is painted in row y1 and then in row y2 |
| Draw.PixelBuffer.FillCircleRow | src/draw.rs:165-178 | one pass of the loop: the half-width is `root` of the u32 value r * r - ly * ly, and the buffer becomes `PairSpan` on rows cy + ly and cy - ly |
| Draw.PixelBuffer.DrawCircle | src/draw.rs:154-184 | FillOnly gives `CircleRows` with half-widths `HalfWidths(root)` over row offsets 0 .. r - 1; the other styles leave the buffer unchanged |
| Raster.IndexIsProduct | src/draw.rs:78-81 | the pixel index equals (width * y + x) * bpp |
| Raster.IndexAtOrigin | src/draw.rs:78-81 | pixel (0, 0) starts at byte 0 |
| Raster.IndexStepX | src/draw.rs:78-81 | one step in x moves the index by bpp |
| Raster.IndexStepY | src/draw.rs:78-81 | one step in y moves the index by width * bpp |
| Raster.IndexUnchecked | src/draw.rs:78-81 | column width + x of row y is pixel x of row y + 1: x is not checked against the width |
| Raster.IndexInjective | src/draw.rs:78-81 | distinct pixels with x < width have distinct indices |
| Raster.IndexMonotone | src/draw.rs:78-81 | the index grows with both coordinates |
| Raster.PutPixelPaints | src/draw.rs:125-127 | after the three writes the pixel has the colour |
| Raster.PutPixelFrame | src/draw.rs:125-127 | a byte outside the three written ones is unchanged |
| Raster.FillSpanColours | src/draw.rs:122-128 | every pixel of the span has the colour |
| Raster.FillSpanFrame | src/draw.rs:122-128 | a byte outside the span's pixels is unchanged |
| Raster.FillRowsColours | src/draw.rs:120-129 | every pixel inside the rectangle has the fill colour |
| Raster.FillRowsKeeps | src/draw.rs:120-129 | a pixel that already had the fill colour keeps it |
| Raster.FillRowsFrame | src/draw.rs:120-129 | a byte outside the rectangle's pixels is unchanged |
| Raster.FillRowsKeepsOutside | src/draw.rs:120-129 | when the rectangle lies within the width, every byte of a pixel outside it is unchanged (with FillRowsColours: exactly the rectangle is painted) |
| Raster.FillRowsKeepsPadding | src/draw.rs:120-129 | bytes 3 .. bpp - 1 of every pixel (the fourth byte under CYMK and RGBA) are never written |
| Raster.StripsCoverFrame | src/draw.rs:138-144 | a point lies in one of the four strips if and only if it is on the frame of thickness t |
| Raster.OutlineColours | src/draw.rs:134-149 | every pixel on the frame has the stroke colour |
| Raster.OutlineFrame | src/draw.rs:134-149 | a byte outside the frame's pixels is unchanged |
| Raster.OutlineKeepsOffFrame | src/draw.rs:134-149 | when the rectangle lies within the width, every byte of a pixel off the frame is unchanged |
| Raster.OutlineKeepsColourOffFrame | src/draw.rs:134-149 | when x + w <= width, a pixel with px < width off the frame keeps whatever colour it had |
| Raster.OutlineKeepsPadding | src/draw.rs:134-149 | the padding bytes are never written by an outline |
| Raster.OutlineSteps | src/draw.rs:145-148 | filling top, right, left and bottom one after another gives `Outline` |
| Raster.OutlineUnfold | src/draw.rs:138-148 | `Outline` is the four strip fills composed in source order, and each strip fits the buffer |
| Raster.PairSpanColours | src/draw.rs:169-178 | every pixel of the span, in either row, has the colour |
| Raster.CircleRowsColours | src/draw.rs:164-179 | for ly < n, the pixels cx - lx .. cx + lx - 1 of rows cy + ly and cy - ly have the fill colour |
| Raster.CircleRowsKeeps | src/draw.rs:164-179 | a pixel that already had the fill colour keeps it |
| Raster.CircleRowsFrame | src/draw.rs:164-179 | a byte outside every span's pixels is unchanged |
| Raster.CircleRowsKeepsOffSpans | src/draw.rs:164-179 | when every half-width is at most r and cx + r <= width, every byte of a pixel with px < width outside the spans is unchanged |
| Raster.CirclePolesUntouched | src/draw.rs:164-179 | when every half-width is at most r and cx + r <= width, no byte of a pixel with px < width on rows cy + r and cy - r changes |
| Raster.CircleRowsKeepsPadding | src/draw.rs:164-179 | the padding bytes are never written by the circle |
| Demo.DemoScene | src/main.rs:205-220 | for a rounding square root whose half-widths are at most 255, `main`'s drawing produces a valid 512 x 512 RGB buffer holding the outline over the circle over zeros, and `access` hands exactly those bytes on |
| Demo.DemoCircleInBounds | src/main.rs:209-213 | for any rounding square root whose half-widths are at most 255 (the exact `RoundSqrt` is one, `Draw.ExactHalfWidthBounded`), the circle of radius 255 at (256, 256) neither overflows u32 nor writes past the buffer |
| Demo.ExactDemoCircleInBounds | src/main.rs:209-213 | with the exact `RoundSqrt`, the circle of radius 255 at (256, 256) neither overflows u32 nor writes past the buffer |
| Demo.DemoCircleSpansInside | src/main.rs:209-213 | for any rounding square root whose half-widths are at most 255 (the exact `RoundSqrt` is one, `Draw.ExactHalfWidthBounded`), every span lies in columns 1 .. 510 and every row offset in rows 2 .. 510 |
| Demo.DemoOutlineInBounds | src/main.rs:210-215 | the 20-pixel frame of the rectangle (75, 75, 360, 360) fits and its largest coordinate is 434 |
| Demo.DemoIndexInBounds | src/main.rs:205-207 | every byte of every pixel of the 512 x 512 image is inside the buffer |
| Demo.DemoFrameWhite | src/main.rs:214-215 | every pixel on the frame is white in the final image |
| Demo.DemoCentreRed | src/main.rs:208-215 | the centre pixel is red in the final image whenever the centre row's half-width is positive |
| Demo.DemoDiscPoles | src/main.rs:208-213 | for any rounding square root whose half-widths are at most 255 (the exact `RoundSqrt` is one, `Draw.ExactHalfWidthBounded`), the disc leaves rows 1 and 511 black |
| Demo.KeepsOffOutline | src/main.rs:214-215 | the outline leaves rows 0 .. 74 and rows from 435 on as they were |
| Demo.DemoPoleRowsBlack | src/main.rs:207-215 | rows 1 and 511 are black in the final image |
| Demo.ExactCentreRow | src/main.rs:209-213 | with the exact half-width, the centre row spans the whole diameter (half-width 255) |
| Demo.ExactDemoCentreRed | src/main.rs:205-215 | with the exact half-width the scene meets the bound and its centre pixel is red |

## Left out

- The X11 display code (src/x11.rs) and the PNG encoding, file creation and `println!` in `main`. They are I/O, and `Demo.DemoScene` stops at the bytes `access` hands to the encoder.
- `mod math` in src/main.rs: it is declared but its file is not part of this model.
- `Vec2::rotated`: it works on `f32` with `cos` and `sin`, which the model has no arithmetic for.
- Draw.PixelBuffer.DrawCircle: `f32` arithmetic is not modelled. The rounding square root is the parameter `root`.
  - `Draw.RoundSqrt` is the exact result.
  - The `f32` computation can differ from it for two reasons. The `u32` to `f32` conversion can round arguments above 2^24 that need more than 24 significant bits. The `f32` square root is itself rounded to 24 bits, which can move a value just below k + 1/2 onto k + 1/2, so that `round()` gives k + 1.
  - Example: n = 16,004,000 (r = 32133, ly = 31883) is below 2^24. Its square root 4000.49997 rounds to the `f32` value 4000.5, which `round()` turns into 4001; `RoundSqrt` gives 4000.
  - For r <= 1024, which includes the scene's r = 255, the two agree. This is a hand argument, not proved here: the conversion is exact, and sqrt(n) is at least 1 / (4 (2r + 1)) away from every k + 1/2, which is more than half a unit in the last place of an `f32` below 1024.
- The `Drawable` trait: its two operations are methods of the class `PixelBuffer`, its only implementer.
- `access`: it passes a borrowed slice to a closure. `Draw.PixelBuffer.Access` only applies a function to the bytes; the borrow's lifetime is not modelled.
- Rust panics are preconditions and are not modelled as failures:
  - a `u32` addition or subtraction that overflows or underflows;
  - a `u32` multiplication that overflows: `r * r` in `draw_circle` (`Draw.CircleOk` requires `r * r <= U32_MAX`) and the products in `scale_height`, `scale_width` and `scale_by` (the `Scale*` requires);
  - a division by zero;
  - a write past the end of the vector.
  In a release build the additions, subtractions and multiplications would wrap around instead, and that wrap-around is not modelled either; a division by zero still panics.
- `usize` arithmetic is unbounded.
- Draw.PixelBuffer.FillRect: the closure receives a `&Rect`; the model passes its position and size as two `Vec2` values that the caller reads from the rectangle.
- `Raster.PixelIndex`: the product is written as a recursive `Mul`. `Raster.IndexIsProduct` proves it equal to `(width * y + x) * bpp`.
