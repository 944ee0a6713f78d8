/**
 * Logical-space geometry shared by the input, shell and grab models:
 * floating-point points (coordinates as reals), integer points and
 * rectangles, and the two float-to-i32 conversions the compositor uses.
 */
module Geometry {
  import opened Wrappers

  /** `Point<f64, Logical>`. */
  datatype Point = Point(x: real, y: real)

  /** `Point<i32, Logical>`. */
  datatype IntPoint = IntPoint(x: int, y: int)

  /** `Rectangle<i32, Logical>`: a location and a non-negative size. */
  datatype Rect = Rect(loc: IntPoint, w: nat, h: nat)

  function Add(p: Point, q: Point): Point {
    Point(p.x + q.x, p.y + q.y)
  }

  function Sub(p: Point, q: Point): Point {
    Point(p.x - q.x, p.y - q.y)
  }

  function ToF64(p: IntPoint): Point {
    Point(p.x as real, p.y as real)
  }

  /** `Rectangle::contains`: the left and top edges are inside, the right and
      bottom edges are not. */
  predicate Contains(r: Rect, p: IntPoint) {
    r.loc.x <= p.x < r.loc.x + r.w && r.loc.y <= p.y < r.loc.y + r.h
  }

  /** The index of the first rectangle containing `p` (`Iterator::find`). */
  function FirstContaining(rects: seq<Rect>, p: IntPoint): (r: Option<nat>)
    ensures r.Some? ==> r.value < |rects| && Contains(rects[r.value], p)
    ensures r.Some? ==> forall j :: 0 <= j < r.value ==> !Contains(rects[j], p)
    ensures r.None? ==> forall j :: 0 <= j < |rects| ==> !Contains(rects[j], p)
  {
    if rects == [] then None
    else if Contains(rects[0], p) then Some(0)
    else match FirstContaining(rects[1..], p)
      case None => None
      case Some(i) => Some(i + 1)
  }

  const I32Min: int := -0x8000_0000
  const I32Max: int := 0x7FFF_FFFF

  /** Rust's float-to-int `as` saturates at the bounds of the target type. */
  function SaturateI32(n: int): (r: int)
    ensures I32Min <= r <= I32Max
    ensures I32Min <= n <= I32Max ==> r == n
  {
    if n < I32Min then I32Min else if n > I32Max then I32Max else n
  }

  /** `x as i32`: rounds toward zero, then saturates. */
  function TruncI32(x: real): (r: int)
    ensures I32Min <= r <= I32Max
    ensures 0.0 <= x < I32Max as real ==> r as real <= x < r as real + 1.0
    ensures I32Min as real < x <= 0.0 ==> r as real - 1.0 < x <= r as real
  {
    if x >= 0.0 then SaturateI32(x.Floor) else SaturateI32(-((-x).Floor))
  }

  /** `f64::round` followed by `as i32`: halves round away from zero. */
  function RoundI32(x: real): (r: int)
    ensures I32Min <= r <= I32Max
    ensures I32Min as real <= x <= I32Max as real ==> -0.5 <= x - r as real <= 0.5
  {
    if x >= 0.0 then SaturateI32((x + 0.5).Floor) else SaturateI32(-((-x + 0.5).Floor))
  }

  /** `Point::to_i32_round`. */
  function ToI32Round(p: Point): IntPoint {
    IntPoint(RoundI32(p.x), RoundI32(p.y))
  }

  /** Rounding an i32 point that was widened to floats gives it back. */
  lemma RoundIntegral(p: IntPoint)
    requires I32Min <= p.x <= I32Max && I32Min <= p.y <= I32Max
    ensures ToI32Round(ToF64(p)) == p
  {
    assert RoundI32(p.x as real) == p.x by {
      if p.x < 0 {
        assert (-(p.x as real) + 0.5).Floor == -p.x;
      } else {
        assert (p.x as real + 0.5).Floor == p.x;
      }
    }
    assert RoundI32(p.y as real) == p.y by {
      if p.y < 0 {
        assert (-(p.y as real) + 0.5).Floor == -p.y;
      } else {
        assert (p.y as real + 0.5).Floor == p.y;
      }
    }
  }
}
