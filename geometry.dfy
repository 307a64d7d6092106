/** Integer vectors and rectangles, as the blitter uses them (Vec2i, Recti). */
module Geometry {

  datatype Vec2i = Vec2i(x: int, y: int) {
    function Plus(o: Vec2i): Vec2i { Vec2i(x + o.x, y + o.y) }
    function Minus(o: Vec2i): Vec2i { Vec2i(x - o.x, y - o.y) }
    function Negated(): Vec2i { Vec2i(-x, -y) }
  }

  /** An axis-aligned rectangle: top-left corner and size; a size component <= 0 makes it empty. */
  datatype Recti = Recti(x: int, y: int, width: int, height: int) {
    predicate IsEmpty() { width <= 0 || height <= 0 }
    function Pos(): Vec2i { Vec2i(x, y) }
    function Size(): Vec2i { Vec2i(width, height) }

    /** The pixel (px, py) is covered by this rectangle. */
    predicate HasPoint(px: int, py: int) {
      x <= px < x + width && y <= py < y + height
    }

    /** The non-empty rectangle `r` lies inside this one. */
    predicate Encloses(r: Recti) {
      x <= r.x && r.x + r.width <= x + width && y <= r.y && r.y + r.height <= y + height
    }
  }

  /** Recti(pos, size). */
  function RectAt(pos: Vec2i, size: Vec2i): Recti {
    Recti(pos.x, pos.y, size.x, size.y)
  }

  /** The default-constructed rectangle Recti(). */
  const EmptyRect := Recti(0, 0, 0, 0)

  function Max(a: int, b: int): int { if a < b then b else a }
  function Min(a: int, b: int): int { if a < b then a else b }

  /**
   * Recti::getIntersection: the largest rectangle covered by both; the size is
   * clamped at zero when they do not overlap.
   */
  function Intersection(a: Recti, b: Recti): (r: Recti)
    ensures r.width >= 0 && r.height >= 0
    ensures forall px, py :: r.HasPoint(px, py) <==> a.HasPoint(px, py) && b.HasPoint(px, py)
    ensures !r.IsEmpty() ==> a.Encloses(r) && b.Encloses(r)
  {
    var left := Max(a.x, b.x);
    var top := Max(a.y, b.y);
    Recti(left, top,
          Max(Min(a.x + a.width, b.x + b.width) - left, 0),
          Max(Min(a.y + a.height, b.y + b.height) - top, 0))
  }
}
