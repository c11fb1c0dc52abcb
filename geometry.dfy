/** Axis-aligned rectangles on the reals, standing for the GUI toolkit's `Bounds`/`BoundingBox`.
    `Contains` and `Intersects` are library code of the toolkit that is not part of this model;
    they are defined here as its documented inclusive comparisons, with a rectangle of negative
    width or height counting as empty. */
module Geometry {

  /** A bounding box given by its minimum corner and its size, like `new BoundingBox(x, y, w, h)`. */
  datatype Rect = Rect(minX: real, minY: real, width: real, height: real) {
    function MaxX(): real { minX + width }
    function MaxY(): real { minY + height }
  }

  /** A 2D vector or point (`Point2D`). */
  datatype Vec = Vec(x: real, y: real)

  const Zero: Vec := Vec(0.0, 0.0)

  predicate Empty(r: Rect) {
    r.width < 0.0 || r.height < 0.0
  }

  /** `outer.contains(inner)`: both corners of `inner` lie in `outer`, borders included. */
  predicate Contains(outer: Rect, inner: Rect) {
    !Empty(outer) && !Empty(inner) &&
    outer.minX <= inner.minX && inner.MaxX() <= outer.MaxX() &&
    outer.minY <= inner.minY && inner.MaxY() <= outer.MaxY()
  }

  /** `a.intersects(b)`: the closed rectangles share a point; touching edges count. */
  predicate Intersects(a: Rect, b: Rect) {
    !Empty(a) && !Empty(b) &&
    b.MaxX() >= a.minX && b.MaxY() >= a.minY && b.minX <= a.MaxX() && b.minY <= a.MaxY()
  }

  predicate ContainsPoint(r: Rect, x: real, y: real) {
    !Empty(r) && r.minX <= x <= r.MaxX() && r.minY <= y <= r.MaxY()
  }

  /** `r` enlarged by `margin` on every side. */
  function Grow(r: Rect, margin: real): (g: Rect)
    ensures g.minX == r.minX - margin && g.MaxX() == r.MaxX() + margin
    ensures g.minY == r.minY - margin && g.MaxY() == r.MaxY() + margin
    ensures margin >= 0.0 && !Empty(r) ==> Contains(g, r)
  {
    Rect(r.minX - margin, r.minY - margin, r.width + 2.0 * margin, r.height + 2.0 * margin)
  }

  /** Quadrant `k` of `r` in the order the spatial index numbers its children:
      0 top-left, 1 top-right, 2 bottom-right, 3 bottom-left. */
  function Quadrant(r: Rect, k: nat): (q: Rect)
    requires k < 4
    ensures q.width == r.width / 2.0 && q.height == r.height / 2.0
  {
    var hw := r.width / 2.0;
    var hh := r.height / 2.0;
    if k == 0 then Rect(r.minX, r.minY, hw, hh)
    else if k == 1 then Rect(r.minX + hw, r.minY, hw, hh)
    else if k == 2 then Rect(r.minX + hw, r.minY + hh, hw, hh)
    else Rect(r.minX, r.minY + hh, hw, hh)
  }

  lemma ContainsTransitive(a: Rect, b: Rect, c: Rect)
    requires Contains(a, b) && Contains(b, c)
    ensures Contains(a, c)
  {
  }

  /** Each quadrant lies inside its rectangle, so whatever a quadrant contains, the rectangle contains. */
  lemma QuadrantInside(r: Rect, k: nat, b: Rect)
    requires k < 4 && Contains(Quadrant(r, k), b)
    ensures Contains(r, b)
  {
  }

  /** The four quadrants cover the rectangle: every point of `r` lies in one of them. */
  function QuadrantOf(r: Rect, x: real, y: real): (k: nat)
    requires ContainsPoint(r, x, y)
    ensures k < 4 && ContainsPoint(Quadrant(r, k), x, y)
  {
    var hw := r.width / 2.0;
    var hh := r.height / 2.0;
    if x <= r.minX + hw then (if y <= r.minY + hh then 0 else 3)
    else (if y <= r.minY + hh then 1 else 2)
  }

  /** Distinct quadrants overlap at most on their shared border: no point lies strictly inside two. */
  lemma QuadrantsDisjoint(r: Rect, j: nat, k: nat, x: real, y: real)
    requires j < 4 && k < 4 && j != k
    requires Quadrant(r, j).minX < x < Quadrant(r, j).MaxX() && Quadrant(r, j).minY < y < Quadrant(r, j).MaxY()
    ensures !(Quadrant(r, k).minX < x < Quadrant(r, k).MaxX() && Quadrant(r, k).minY < y < Quadrant(r, k).MaxY())
  {
  }

  /** The border clamp of a drag along one axis: a start `v` before `lo` moves up to `lo`;
      otherwise an end `v + size` past `hi` moves the start back to `hi - size`. A span that fits
      between the borders ends up between them, and one already between them stays put. */
  function ClampAxis(v: real, size: real, lo: real, hi: real): (r: real)
    ensures size <= hi - lo ==> lo <= r && r + size <= hi
    ensures lo <= v && v + size <= hi ==> r == v
    ensures r == v || r == lo || r == hi - size
  {
    if v < lo then lo
    else if v + size > hi then hi - size
    else v
  }

  /** Where a drag puts the start of a node along one axis: the pointer minus the offset of the
      grab point from that start, clamped to the pane's span `[lo, hi]` when borders collide. */
  function AxisTarget(pointer: real, offset: real, size: real, lo: real, hi: real, collide: bool): (r: real)
    ensures !collide ==> r + offset == pointer
    ensures collide && size <= hi - lo ==> lo <= r && r + size <= hi
  {
    if collide then ClampAxis(pointer - offset, size, lo, hi) else pointer - offset
  }

  lemma IntersectsSymmetric(a: Rect, b: Rect)
    ensures Intersects(a, b) == Intersects(b, a)
  {
  }

  /** Growing either rectangle by the same non-negative margin gives the same answer, so the
      "within distance `margin`" test is symmetric between non-empty rectangles. */
  lemma GrownIntersectsSymmetric(a: Rect, b: Rect, margin: real)
    requires margin >= 0.0 && !Empty(a) && !Empty(b)
    ensures Intersects(Grow(a, margin), b) == Intersects(Grow(b, margin), a)
  {
  }
}
