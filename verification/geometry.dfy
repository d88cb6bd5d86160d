/** Plane geometry over exact reals: the CGPoint, CGSize and CGRect values the
    scene works with. CGFloat rounding is abstracted away. */
module Geometry {

  /** A position in scene coordinates. */
  datatype Point = Point(x: real, y: real)

  /** A velocity or displacement; CGPoint plays both roles in the scene. */
  datatype Vector = Vector(x: real, y: real)

  datatype Size = Size(width: real, height: real)

  /** A rectangle given by an origin and a (possibly negative) size, as CGRect
      is. The Min/Max accessors below read it standardised, as CGRect does. */
  datatype Rect = Rect(x: real, y: real, width: real, height: real)

  function Min(a: real, b: real): real { if a <= b then a else b }
  function Max(a: real, b: real): real { if a <= b then b else a }

  function MinX(r: Rect): real { Min(r.x, r.x + r.width) }
  function MaxX(r: Rect): real { Max(r.x, r.x + r.width) }
  function MinY(r: Rect): real { Min(r.y, r.y + r.height) }
  function MaxY(r: Rect): real { Max(r.y, r.y + r.height) }

  /** The standardised edges of a rectangle are ordered and span its size. */
  lemma EdgesOrdered(r: Rect)
    ensures MinX(r) <= MaxX(r) && MinY(r) <= MaxY(r)
    ensures MaxX(r) - MinX(r) == if r.width < 0.0 then -r.width else r.width
    ensures MaxY(r) - MinY(r) == if r.height < 0.0 then -r.height else r.height
  {
  }

  /** `CGRect.insetBy(dx:dy:)` on the standardised rectangle: every edge moves
      inwards, the left and right ones by `dx`, the bottom and top ones by `dy`.
      What the library does when the result would be empty is left to the
      intersection test that consumes it. */
  function InsetBy(r: Rect, dx: real, dy: real): (s: Rect)
    ensures s.x == MinX(r) + dx && s.y == MinY(r) + dy
    ensures s.x + s.width == MaxX(r) - dx && s.y + s.height == MaxY(r) - dy
  {
    Rect(MinX(r) + dx, MinY(r) + dy,
         (MaxX(r) - MinX(r)) - 2.0 * dx, (MaxY(r) - MinY(r)) - 2.0 * dy)
  }

  function Add(p: Point, d: Vector): Point { Point(p.x + d.x, p.y + d.y) }

  function Sub(p: Point, q: Point): Vector { Vector(p.x - q.x, p.y - q.y) }

  function Scale(v: Vector, k: real): Vector { Vector(v.x * k, v.y * k) }

  function SquaredLength(v: Vector): real { v.x * v.x + v.y * v.y }
}
