/**
 * Geometry primitives of the rasterizer: points, rectangles, circles and lines.
 * The scalar type parameter of src/shapes.rs is instantiated with `u32`, the only
 * instantiation the rasterizer uses; an addition or multiplication that would
 * overflow 32 bits, and a division by zero, are rejected by a precondition
 * (they panic in the Rust code).
 */
module Shapes {

  const U32_MAX: int := 0xFFFF_FFFF

  /** Unsigned 32-bit integer. */
  newtype u32 = n: int | 0 <= n <= U32_MAX

  /** A point or a size; `Vec2::new` is the datatype constructor. */
  datatype Vec2<T> = Vec2(x: T, y: T)

  /** A segment between two points; the rasterizer never draws it. */
  datatype Line<T> = Line(from: Vec2<T>, to: Vec2<T>)

  /** `Line::between`: the line from `p1` to `p2`. */
  function Between<T>(p1: Vec2<T>, p2: Vec2<T>): (l: Line<T>)
    ensures l.from == p1 && l.to == p2
  {
    Line(p1, p2)
  }

  /** v scaled by the ratio num / den, dividing (truncating) first: (v / den) * num. */
  function Scaled(v: u32, num: u32, den: u32): int
    requires den != 0
  {
    (v as int / den as int) * num as int
  }

  /** An axis-aligned rectangle: top-left corner (x, y) and a size. */
  class Rect {
    var x: u32
    var y: u32
    var width: u32
    var height: u32

    /** `Rect::null`: the empty rectangle at the origin. */
    constructor Null()
      ensures GetPos() == Vec2(0, 0) && GetSize() == Vec2(0, 0)
    {
      x, y, width, height := 0, 0, 0, 0;
    }

    /** `Rect::new`: stores the four values verbatim. */
    constructor (x: u32, y: u32, width: u32, height: u32)
      ensures GetPos() == Vec2(x, y) && GetSize() == Vec2(width, height)
    {
      this.x, this.y, this.width, this.height := x, y, width, height;
    }

    /** `get_pos`: the top-left corner. */
    function GetPos(): (p: Vec2<u32>)
      reads this
      ensures p.x == x && p.y == y
    {
      Vec2(x, y)
    }

    /** `get_size`: the width and height. */
    function GetSize(): (s: Vec2<u32>)
      reads this
      ensures s.x == width && s.y == height
    {
      Vec2(width, height)
    }

    /** Sets the size; the position is kept. */
    method Resize(width: u32, height: u32)
      modifies this
      ensures GetSize() == Vec2(width, height) && GetPos() == old(GetPos())
    {
      this.width := width;
      this.height := height;
    }

    /** Sets the position; the size is kept. */
    method SetPos(x: u32, y: u32)
      modifies this
      ensures GetPos() == Vec2(x, y) && GetSize() == old(GetSize())
    {
      this.x := x;
      this.y := y;
    }

    /** Translates by (dx, dy). */
    method SetXY(dx: u32, dy: u32)
      requires x as int + dx as int <= U32_MAX && y as int + dy as int <= U32_MAX
      modifies this
      ensures x as int == old(x) as int + dx as int && y as int == old(y) as int + dy as int
      ensures GetSize() == old(GetSize())
    {
      x := x + dx;
      y := y + dy;
    }

    /**
     * The new y is computed from the x that was just updated, not from the old y,
     * so the result is x' = x + dx and y' = x' + dy.
     */
    method MoveBy(dx: u32, dy: u32)
      requires x as int + dx as int + dy as int <= U32_MAX
      modifies this
      ensures x as int == old(x) as int + dx as int
      ensures y as int == old(x) as int + dx as int + dy as int
      ensures GetSize() == old(GetSize())
    {
      x := x + dx;
      y := x + dy;
    }

    /** Scales the height by the ratio num / den, dividing (truncating) first. */
    method ScaleHeight(num: u32, den: u32)
      requires den != 0 && Scaled(height, num, den) <= U32_MAX
      modifies this
      ensures height as int == Scaled(old(height), num, den)
      ensures GetPos() == old(GetPos()) && width == old(width)
    {
      height := height / den;
      height := height * num;
    }

    /** Scales the width by the ratio num / den, dividing (truncating) first. */
    method ScaleWidth(num: u32, den: u32)
      requires den != 0 && Scaled(width, num, den) <= U32_MAX
      modifies this
      ensures width as int == Scaled(old(width), num, den)
      ensures GetPos() == old(GetPos()) && height == old(height)
    {
      width := width / den;
      width := width * num;
    }

    /** Scales both dimensions by the ratio num / den: the width statements, then the height ones. */
    method ScaleBy(num: u32, den: u32)
      requires den != 0
      requires Scaled(width, num, den) <= U32_MAX
      requires Scaled(height, num, den) <= U32_MAX
      modifies this
      ensures width as int == Scaled(old(width), num, den)
      ensures height as int == Scaled(old(height), num, den)
      ensures GetPos() == old(GetPos())
    {
      ScaleWidth(num, den);
      ScaleHeight(num, den);
    }

    method SetHeight(height: u32)
      modifies this
      ensures this.height == height
      ensures GetPos() == old(GetPos()) && width == old(width)
    {
      this.height := height;
    }

    method SetWidth(width: u32)
      modifies this
      ensures this.width == width
      ensures GetPos() == old(GetPos()) && height == old(height)
    {
      this.width := width;
    }
  }

  /** A circle given by its centre and radius. */
  class Circle {
    var x: u32
    var y: u32
    var radius: u32

    /** `Circle::new`: stores the centre and radius verbatim. */
    constructor (x: u32, y: u32, radius: u32)
      ensures GetPos() == Vec2(x, y) && GetRadius() == radius
    {
      this.x, this.y, this.radius := x, y, radius;
    }

    /** `get_radius`: the radius. */
    function GetRadius(): (r: u32)
      reads this
      ensures r == radius
    {
      radius
    }

    /** `get_pos`: the centre. */
    function GetPos(): (p: Vec2<u32>)
      reads this
      ensures p.x == x && p.y == y
    {
      Vec2(x, y)
    }

    method SetRadius(radius: u32)
      modifies this
      ensures GetRadius() == radius && GetPos() == old(GetPos())
    {
      this.radius := radius;
    }

    method SetPos(x: u32, y: u32)
      modifies this
      ensures GetPos() == Vec2(x, y) && GetRadius() == old(GetRadius())
    {
      this.x := x;
      this.y := y;
    }
  }
}
