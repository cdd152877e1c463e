/** Plane geometry of the layout engine: points, min/max rectangles, the
    clamp of the maths library, and the size limits read from a style. */
module Geometry {
  import opened Common

  datatype Vec = Vec(x: real, y: real)

  /** A rectangle stored by its edges. Setting one edge keeps the opposite
      edge where it was, which is how the engine's rectangle setters behave. */
  datatype Rect = Rect(xMin: real, yMin: real, xMax: real, yMax: real) {

    function Width(): real { xMax - xMin }

    function Height(): real { yMax - yMin }

    /** Containment of a point: closed on the low edges, open on the high ones. */
    predicate Contains(p: Vec) {
      xMin <= p.x < xMax && yMin <= p.y < yMax
    }

    /** `this` lies inside `outer` (edges may touch). */
    predicate Inside(outer: Rect) {
      outer.xMin <= xMin && xMax <= outer.xMax && outer.yMin <= yMin && yMax <= outer.yMax
    }

    /** Assigning the position moves the rectangle and keeps its size. */
    function WithPosition(x: real, y: real): (r: Rect)
      ensures r.xMin == x && r.yMin == y
      ensures r.Width() == Width() && r.Height() == Height()
    {
      Rect(x, y, x + Width(), y + Height())
    }
  }

  /** The maths library's clamp: the lower bound is tested first, so when the
      bounds are crossed (`lo > hi`) a value below `lo` gives `lo` and any other
      value gives `hi`. */
  function Clamp(v: real, lo: real, hi: real): (r: real)
    ensures lo <= hi ==> lo <= r <= hi
    ensures lo <= v <= hi ==> r == v
    ensures v < lo ==> r == lo
    ensures lo <= v && hi < v ==> r == hi
  {
    if v < lo then lo else if v > hi then hi else v
  }

  /** Clamp against bounds that may be infinite: an absent bound is never
      crossed, exactly as a comparison with an infinity never succeeds. */
  function ClampOpt(v: real, lo: Option<real>, hi: Option<real>): (r: real)
    ensures lo.Some? && hi.Some? ==> r == Clamp(v, lo.value, hi.value)
    ensures lo.None? && hi.Some? ==> r == if v > hi.value then hi.value else v
    ensures lo.Some? && hi.None? ==> r == if v < lo.value then lo.value else v
    ensures lo.None? && hi.None? ==> r == v
  {
    if lo.Some? && v < lo.value then lo.value
    else if hi.Some? && v > hi.value then hi.value
    else v
  }

  /** Minimum and maximum size as resolved from a style; a maximum whose
      keyword is unset is unbounded (`None`). */
  datatype Limits = Limits(minWidth: real, minHeight: real, maxWidth: Option<real>, maxHeight: Option<real>)
  {
    /** Consistent limits: every bound present is not below its minimum. */
    predicate Consistent() {
      (maxWidth.Some? ==> minWidth <= maxWidth.value)
      && (maxHeight.Some? ==> minHeight <= maxHeight.value)
    }
  }

  /** `v` is inside `[lo, hi]`, with an absent `hi` meaning no upper bound. */
  predicate Within(v: real, lo: real, hi: Option<real>) {
    lo <= v && (hi.Some? ==> v <= hi.value)
  }

  /** Adds `d` to a bound, keeping an infinite bound infinite. */
  function OptAdd(b: Option<real>, d: real): (r: Option<real>)
    ensures r.Some? <==> b.Some?
    ensures r.Some? ==> r.value == b.value + d
  {
    match b
    case None => None
    case Some(x) => Some(x + d)
  }

  /** Subtracts a bound from `x`: `x - infinity` is minus infinity. */
  function OptSubFrom(x: real, b: Option<real>): (r: Option<real>)
    ensures r.Some? <==> b.Some?
    ensures r.Some? ==> r.value == x - b.value
  {
    match b
    case None => None
    case Some(y) => Some(x - y)
  }
}
