/** Page-coordinate rectangles (points, 72 per inch), as the layout source reports them. */
module Geometry {

  /** A bounding box `(x0, y0, x1, y1)`; the source's floats are modelled as reals. */
  datatype Box = Box(x0: real, y0: real, x1: real, y1: real)

  /** `outer` covers `inner` on both axes. */
  predicate Contains(outer: Box, inner: Box) {
    outer.x0 <= inner.x0 && outer.y0 <= inner.y0 && inner.x1 <= outer.x1 && inner.y1 <= outer.y1
  }

  function Min(a: real, b: real): real { if a <= b then a else b }

  function Max(a: real, b: real): real { if a >= b then a else b }

  /** Component-wise union: the smallest box covering both arguments. */
  function Union(a: Box, b: Box): (r: Box)
    ensures Contains(r, a) && Contains(r, b)
    ensures forall c :: Contains(c, a) && Contains(c, b) ==> Contains(c, r)
  {
    Box(Min(a.x0, b.x0), Min(a.y0, b.y0), Max(a.x1, b.x1), Max(a.y1, b.y1))
  }

  /** `c` covers every box of `boxes`. */
  predicate CoversAll(c: Box, boxes: seq<Box>) {
    forall i :: 0 <= i < |boxes| ==> Contains(c, boxes[i])
  }

  /** The union of a non-empty list of boxes, folded left to right as the source does. */
  function UnionAll(boxes: seq<Box>): (r: Box)
    requires |boxes| > 0
    ensures CoversAll(r, boxes)
    ensures forall c :: CoversAll(c, boxes) ==> Contains(c, r)
  {
    if |boxes| == 1 then boxes[0]
    else
      var init := UnionAll(boxes[..|boxes| - 1]);
      var r := Union(init, boxes[|boxes| - 1]);
      assert forall c :: CoversAll(c, boxes) ==> CoversAll(c, boxes[..|boxes| - 1]);
      r
  }

  /** Width of a rectangle, never negative. */
  function Width(b: Box): (w: real)
    ensures w >= 0.0
    ensures b.x0 <= b.x1 ==> w == b.x1 - b.x0
  {
    Max(b.x1 - b.x0, 0.0)
  }
}
