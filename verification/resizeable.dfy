/** The pointer-driven resize/move state machine of a resizeable element.
    A left-button press hit-tests the pointer against the element's edges,
    remembers the mode, the layout rectangle and the pointer position; each
    pointer move derives a new rectangle from that snapshot and clamps it into
    the parent's content rectangle; releasing the pointer ends the drag. */
module Resizeable {
  import opened Common
  import opened Geometry
  import RM = ResizeModes

  /** The mouse button number of the primary (left) button. */
  const LeftMouse: int := 0

  /** A pointer event: button, position local to the element, position on
      screen, and the movement since the previous pointer event. */
  datatype PointerEvent = PointerEvent(button: int, localPosition: Vec, position: Vec, deltaPosition: Vec)

  /** The element's state: its layout rectangle (in the parent's space), the
      current mode, the snapshot taken on pointer-down, the width of the resize
      margin, and its resolved size limits. */
  datatype Surface = Surface(
    layout: Rect,
    mode: RM.Mode,
    startRect: Rect,
    startPoint: Vec,
    handleWidth: int,
    limits: Limits)

  /** Hit test of a point in local coordinates against an element of the given
      size. A point within the margin of an edge sets that edge's bit, and the
      bits add, so a corner yields a corner mode. Only when no edge bit is set
      is the move handle consulted; `moveHandle` is the handle's rectangle in
      local coordinates. The margins' inner edges come from the engine's
      min/max rectangle factory; the float rectangle keeps its edges as given
      (only the engine's integer rectangle reorders them), so on an element
      narrower than twice its margin the inner edges cross and a middle point
      lies in both side margins. */
  function HitTest(local: Vec, width: real, height: real, handleWidth: int, moveHandle: Rect): (m: RM.Mode)
    ensures RM.IsHitResult(m)
    ensures RM.HasFlag(m, RM.Left) <==> local.x <= handleWidth as real
    ensures RM.HasFlag(m, RM.Right) <==> local.x >= width - handleWidth as real
    ensures RM.HasFlag(m, RM.Top) <==> local.y <= handleWidth as real
    ensures RM.HasFlag(m, RM.Bottom) <==> local.y >= height - handleWidth as real
    ensures m == RM.Move <==>
              && handleWidth as real < local.x < width - handleWidth as real
              && handleWidth as real < local.y < height - handleWidth as real
              && moveHandle.Contains(local)
    ensures m == RM.None <==>
              && handleWidth as real < local.x < width - handleWidth as real
              && handleWidth as real < local.y < height - handleWidth as real
              && !moveHandle.Contains(local)
  {
    var w := handleWidth as real;
    var inset := Rect(w, w, width - w, height - w);
    var edges := RM.EdgeBits(local.x <= inset.xMin, local.x >= inset.xMax,
                             local.y <= inset.yMin, local.y >= inset.yMax);
    if edges == RM.None && moveHandle.Contains(local) then RM.Move else edges
  }

  /** Pointer-down. Any button other than the left one is ignored. The left
      button sets the mode to the hit-test result (even `None`), and
      snapshots the layout rectangle and the pointer's screen position; the
      element's own rectangle is the hit test's size. */
  function PointerDown(s: Surface, e: PointerEvent, moveHandle: Rect): (r: Surface)
    ensures e.button != LeftMouse ==> r == s
    ensures e.button == LeftMouse ==>
              && r.mode == HitTest(e.localPosition, s.layout.Width(), s.layout.Height(), s.handleWidth, moveHandle)
              && r.startRect == s.layout && r.startPoint == e.position
              && r == s.(mode := r.mode, startRect := r.startRect, startPoint := r.startPoint)
  {
    if e.button != LeftMouse then s
    else
      s.(mode := HitTest(e.localPosition, s.layout.Width(), s.layout.Height(), s.handleWidth, moveHandle),
         startRect := s.layout,
         startPoint := e.position)
  }

  /** A dragged low edge (left or top). The drag asks for `want`; the
      size between the edge and the snapshot's opposite edge `far` is held
      in the limits, so the edge follows the pointer while that size is
      within them and otherwise sits at the limit it crosses. */
  function DraggedLow(want: real, far: real, minSize: real, maxSize: Option<real>): (r: real)
    ensures (maxSize.Some? ==> minSize <= maxSize.value) ==>
              && Within(far - r, minSize, maxSize)
              && (Within(far - want, minSize, maxSize) ==> r == want)
              && (far - want < minSize ==> r == far - minSize)
              && (maxSize.Some? && far - want > maxSize.value ==> r == far - maxSize.value)
  {
    ClampOpt(want, OptSubFrom(far, maxSize), Some(far - minSize))
  }

  /** A dragged high edge (right or bottom), measured from the snapshot's
      opposite edge `near` in the same way. */
  function DraggedHigh(want: real, near: real, minSize: real, maxSize: Option<real>): (r: real)
    ensures (maxSize.Some? ==> minSize <= maxSize.value) ==>
              && Within(r - near, minSize, maxSize)
              && (Within(want - near, minSize, maxSize) ==> r == want)
              && (want - near < minSize ==> r == near + minSize)
              && (maxSize.Some? && want - near > maxSize.value ==> r == near + maxSize.value)
  {
    ClampOpt(want, Some(near + minSize), OptAdd(maxSize, near))
  }

  /** The rectangle a pointer move asks for, before the parent clamp. It
      starts from the current layout; each edge named by the mode is placed at
      the snapshot edge plus the pointer's travel since the snapshot, clamped so
      that its distance to the snapshot's OPPOSITE edge stays in the size
      limits; `Move` translates by the event's own movement instead. */
  function DragCandidate(s: Surface, e: PointerEvent): (r: Rect)
    ensures s.limits.Consistent() && RM.IsEdgeSet(s.mode) ==>
              var st := s.startRect;
              var minW, maxW := s.limits.minWidth, s.limits.maxWidth;
              var want := st.xMin + e.position.x - s.startPoint.x;
              RM.HasFlag(s.mode, RM.Left) ==>
                && (Within(st.xMax - want, minW, maxW) ==> r.xMin == want)
                && (st.xMax - want < minW ==> r.xMin == st.xMax - minW)
                && (maxW.Some? && st.xMax - want > maxW.value ==> r.xMin == st.xMax - maxW.value)
    ensures s.limits.Consistent() && RM.IsEdgeSet(s.mode) ==>
              var st := s.startRect;
              var minW, maxW := s.limits.minWidth, s.limits.maxWidth;
              var want := st.xMax + e.position.x - s.startPoint.x;
              RM.HasFlag(s.mode, RM.Right) ==>
                && (Within(want - st.xMin, minW, maxW) ==> r.xMax == want)
                && (want - st.xMin < minW ==> r.xMax == st.xMin + minW)
                && (maxW.Some? && want - st.xMin > maxW.value ==> r.xMax == st.xMin + maxW.value)
    ensures s.limits.Consistent() && RM.IsEdgeSet(s.mode) ==>
              var st := s.startRect;
              var minH, maxH := s.limits.minHeight, s.limits.maxHeight;
              var want := st.yMin + e.position.y - s.startPoint.y;
              RM.HasFlag(s.mode, RM.Top) ==>
                && (Within(st.yMax - want, minH, maxH) ==> r.yMin == want)
                && (st.yMax - want < minH ==> r.yMin == st.yMax - minH)
                && (maxH.Some? && st.yMax - want > maxH.value ==> r.yMin == st.yMax - maxH.value)
    ensures s.limits.Consistent() && RM.IsEdgeSet(s.mode) ==>
              var st := s.startRect;
              var minH, maxH := s.limits.minHeight, s.limits.maxHeight;
              var want := st.yMax + e.position.y - s.startPoint.y;
              RM.HasFlag(s.mode, RM.Bottom) ==>
                && (Within(want - st.yMin, minH, maxH) ==> r.yMax == want)
                && (want - st.yMin < minH ==> r.yMax == st.yMin + minH)
                && (maxH.Some? && want - st.yMin > maxH.value ==> r.yMax == st.yMin + maxH.value)
    ensures s.limits.Consistent() && RM.IsEdgeSet(s.mode) ==>
              (RM.HasFlag(s.mode, RM.Left) ==>
                 Within(s.startRect.xMax - r.xMin, s.limits.minWidth, s.limits.maxWidth))
              && (RM.HasFlag(s.mode, RM.Right) ==>
                    Within(r.xMax - s.startRect.xMin, s.limits.minWidth, s.limits.maxWidth))
              && (RM.HasFlag(s.mode, RM.Top) ==>
                    Within(s.startRect.yMax - r.yMin, s.limits.minHeight, s.limits.maxHeight))
              && (RM.HasFlag(s.mode, RM.Bottom) ==>
                    Within(r.yMax - s.startRect.yMin, s.limits.minHeight, s.limits.maxHeight))
    ensures RM.IsEdgeSet(s.mode) ==>
              && (!RM.HasFlag(s.mode, RM.Left) ==> r.xMin == s.layout.xMin)
              && (!RM.HasFlag(s.mode, RM.Right) ==> r.xMax == s.layout.xMax)
              && (!RM.HasFlag(s.mode, RM.Top) ==> r.yMin == s.layout.yMin)
              && (!RM.HasFlag(s.mode, RM.Bottom) ==> r.yMax == s.layout.yMax)
    ensures s.mode == RM.Move ==>
              r == s.layout.WithPosition(s.layout.xMin + e.deltaPosition.x, s.layout.yMin + e.deltaPosition.y)
  {
    var lim := s.limits;
    var st := s.startRect;
    var dx := e.position.x - s.startPoint.x;
    var dy := e.position.y - s.startPoint.y;
    var xMin := if RM.HasFlag(s.mode, RM.Left) then DraggedLow(st.xMin + dx, st.xMax, lim.minWidth, lim.maxWidth)
                else s.layout.xMin;
    var xMax := if RM.HasFlag(s.mode, RM.Right) then DraggedHigh(st.xMax + dx, st.xMin, lim.minWidth, lim.maxWidth)
                else s.layout.xMax;
    var yMin := if RM.HasFlag(s.mode, RM.Top) then DraggedLow(st.yMin + dy, st.yMax, lim.minHeight, lim.maxHeight)
                else s.layout.yMin;
    var yMax := if RM.HasFlag(s.mode, RM.Bottom) then DraggedHigh(st.yMax + dy, st.yMin, lim.minHeight, lim.maxHeight)
                else s.layout.yMax;
    var r4 := Rect(xMin, yMin, xMax, yMax);
    if RM.HasFlag(s.mode, RM.Move)
    then r4.WithPosition(r4.xMin + e.deltaPosition.x, r4.yMin + e.deltaPosition.y)
    else r4
  }

  /** Applies a rectangle to the element, clamped into the parent's content
      rectangle; without a parent nothing happens. In `Move` mode the position
      is clamped first (keeping the size); then the low corner is raised to the
      parent's and the high corner lowered to the parent's. */
  function UpdateRect(s: Surface, rect: Rect, parent: Option<Rect>): (r: Surface)
    ensures parent.None? ==> r == s
    ensures r == s.(layout := r.layout)
    ensures parent.Some? ==> r.layout.Inside(parent.value)
    ensures parent.Some? && rect.Inside(parent.value) ==> r.layout == rect
    ensures parent.Some? && parent.value.xMin <= parent.value.xMax && rect.xMin <= rect.xMax
            && (s.mode == RM.Move || (parent.value.xMin <= rect.xMax && rect.xMin <= parent.value.xMax)) ==>
              r.layout.xMin <= r.layout.xMax
    ensures parent.Some? && parent.value.yMin <= parent.value.yMax && rect.yMin <= rect.yMax
            && (s.mode == RM.Move || (parent.value.yMin <= rect.yMax && rect.yMin <= parent.value.yMax)) ==>
              r.layout.yMin <= r.layout.yMax
    ensures parent.Some? && s.mode == RM.Move
            && rect.Width() <= parent.value.Width() && rect.Height() <= parent.value.Height() ==>
              && r.layout.Inside(parent.value)
              && r.layout.Width() == rect.Width() && r.layout.Height() == rect.Height()
  {
    match parent
    case None => s
    case Some(p) =>
      var moved := if s.mode == RM.Move
                   then rect.WithPosition(Clamp(rect.xMin, p.xMin, p.xMax - rect.Width()),
                                          Clamp(rect.yMin, p.yMin, p.yMax - rect.Height()))
                   else rect;
      var raised := moved.(xMin := Max(moved.xMin, p.xMin), yMin := Max(moved.yMin, p.yMin));
      var lowered := raised.(xMax := Min(raised.xMax, p.xMax), yMax := Min(raised.yMax, p.yMax));
      s.(layout := lowered)
  }

  function Max(a: real, b: real): real { if a >= b then a else b }

  function Min(a: real, b: real): real { if a <= b then a else b }

  /** The engine's rectangle setters keep crossed edges crossed: outside a
      drag, a rectangle lying wholly left of the parent has its left edge
      raised to the parent's and keeps its right edge, so it comes out with
      its edges crossed rather than empty. */
  lemma UpdateRectOutsideParent(s: Surface)
    requires s.mode == RM.None
    ensures UpdateRect(s, Rect(-50.0, 0.0, -10.0, 10.0), Some(Rect(0.0, 0.0, 100.0, 100.0))).layout
            == Rect(0.0, 0.0, -10.0, 10.0)
  {
  }

  /** Pointer-move: the candidate rectangle, clamped into the parent. It runs
      for every move over the element, not only during a drag. */
  function PointerMove(s: Surface, e: PointerEvent, parent: Option<Rect>): (r: Surface)
    ensures r.mode == s.mode && r.startRect == s.startRect && r.startPoint == s.startPoint
    ensures parent.Some? ==> r.layout.Inside(parent.value)
  {
    UpdateRect(s, DragCandidate(s, e), parent)
  }

  /** Pointer-up: the drag ends whatever state the element was in. */
  function PointerUp(s: Surface): (r: Surface)
    ensures r.mode == RM.None
    ensures r.layout == s.layout && r.startRect == s.startRect && r.startPoint == s.startPoint
    ensures r.handleWidth == s.handleWidth && r.limits == s.limits
  {
    s.(mode := RM.None)
  }

  /** Edges take precedence over moving: a point in an edge margin never
      starts a move, even when it lies in the move handle. */
  lemma EdgesBeforeMove(local: Vec, width: real, height: real, handleWidth: int, moveHandle: Rect)
    requires local.x <= handleWidth as real || local.y >= height - handleWidth as real
             || local.x >= width - handleWidth as real || local.y <= handleWidth as real
    ensures HitTest(local, width, height, handleWidth, moveHandle) != RM.Move
    ensures HitTest(local, width, height, handleWidth, moveHandle) != RM.None
  {
  }

  /** On an element no wider than twice its margin, a point in the middle is
      inside both side margins at once: the hit test yields `Left | Right`,
      which is not one of the named modes. */
  lemma NarrowElementHitsBothSides(width: real, handleWidth: int, moveHandle: Rect)
    requires 0.0 <= width <= 2.0 * handleWidth as real
    ensures HitTest(Vec(width / 2.0, handleWidth as real + 1.0), width, 2.0 * handleWidth as real + 2.0 + 1.0,
                    handleWidth, moveHandle) == RM.Left | RM.Right
    ensures RM.Left | RM.Right !in RM.Named
  {
    var m := HitTest(Vec(width / 2.0, handleWidth as real + 1.0), width, 2.0 * handleWidth as real + 2.0 + 1.0,
                     handleWidth, moveHandle);
    assert RM.IsEdgeSet(m);
    RM.EdgeSetDeterminedByBits(m);
  }

  /** A pointer that moves while no drag is active re-applies the current
      layout through the parent clamp. */
  lemma IdleMoveReappliesLayout(s: Surface, e: PointerEvent, parent: Option<Rect>)
    requires s.mode == RM.None
    ensures PointerMove(s, e, parent) == UpdateRect(s, s.layout, parent)
    ensures parent.Some? && s.layout.Inside(parent.value) ==> PointerMove(s, e, parent) == s
  {
  }

  /** A `Move` drag translates by the event's per-event movement and ignores
      how far the pointer is from where the drag started; inside a parent
      large enough, the element keeps its size and stays inside. */
  lemma MoveDragKeepsSize(s: Surface, e: PointerEvent, p: Rect)
    requires s.mode == RM.Move
    requires 0.0 <= s.layout.Width() <= p.Width() && 0.0 <= s.layout.Height() <= p.Height()
    ensures PointerMove(s, e, Some(p)).layout.Inside(p)
    ensures PointerMove(s, e, Some(p)).layout.Width() == s.layout.Width()
    ensures PointerMove(s, e, Some(p)).layout.Height() == s.layout.Height()
    ensures forall pos: Vec :: PointerMove(s, e.(position := pos), Some(p)) == PointerMove(s, e, Some(p))
  {
  }

  /** A horizontal resize keeps the width within the limits whatever the
      pointer travel, as long as the opposite edge is still where the drag
      started. The parent clamp may only make the element narrower. */
  lemma HorizontalResizeWithinLimits(s: Surface, e: PointerEvent, p: Rect)
    requires s.mode == RM.Left || s.mode == RM.Right
    requires s.limits.Consistent()
    requires s.mode == RM.Left ==> s.layout.xMax == s.startRect.xMax
    requires s.mode == RM.Right ==> s.layout.xMin == s.startRect.xMin
    ensures Within(DragCandidate(s, e).Width(), s.limits.minWidth, s.limits.maxWidth)
    ensures s.limits.maxWidth.Some? ==> PointerMove(s, e, Some(p)).layout.Width() <= s.limits.maxWidth.value
    ensures DragCandidate(s, e).Inside(p) ==>
              Within(PointerMove(s, e, Some(p)).layout.Width(), s.limits.minWidth, s.limits.maxWidth)
  {
    assert RM.IsEdgeSet(s.mode);
    assert RM.HasFlag(s.mode, RM.Left) <==> s.mode == RM.Left;
    assert RM.HasFlag(s.mode, RM.Right) <==> s.mode == RM.Right;
  }

  /** A vertical resize keeps the height within the limits, likewise. */
  lemma VerticalResizeWithinLimits(s: Surface, e: PointerEvent, p: Rect)
    requires s.mode == RM.Top || s.mode == RM.Bottom
    requires s.limits.Consistent()
    requires s.mode == RM.Top ==> s.layout.yMax == s.startRect.yMax
    requires s.mode == RM.Bottom ==> s.layout.yMin == s.startRect.yMin
    ensures Within(DragCandidate(s, e).Height(), s.limits.minHeight, s.limits.maxHeight)
    ensures s.limits.maxHeight.Some? ==> PointerMove(s, e, Some(p)).layout.Height() <= s.limits.maxHeight.value
    ensures DragCandidate(s, e).Inside(p) ==>
              Within(PointerMove(s, e, Some(p)).layout.Height(), s.limits.minHeight, s.limits.maxHeight)
  {
    assert RM.IsEdgeSet(s.mode);
    assert RM.HasFlag(s.mode, RM.Top) <==> s.mode == RM.Top;
    assert RM.HasFlag(s.mode, RM.Bottom) <==> s.mode == RM.Bottom;
  }

  /** A bottom-right drag that overshoots the maximum size lands exactly on
      it: from the snapshot, a pointer travel of (1000, 1000) with limits
      100x50 .. 400x300 gives a 400x300 element, given room in the parent. */
  lemma BottomRightOvershootHitsMaximum(s: Surface, e: PointerEvent, p: Rect)
    requires s.mode == RM.BottomRight
    requires s.limits == Limits(100.0, 50.0, Some(400.0), Some(300.0))
    requires s.layout == s.startRect
    requires 100.0 <= s.layout.Width() <= 400.0 && 50.0 <= s.layout.Height() <= 300.0
    requires e.position == Vec(s.startPoint.x + 1000.0, s.startPoint.y + 1000.0)
    requires Rect(s.layout.xMin, s.layout.yMin, s.layout.xMin + 400.0, s.layout.yMin + 300.0).Inside(p)
    ensures PointerMove(s, e, Some(p)).layout.Width() == 400.0
    ensures PointerMove(s, e, Some(p)).layout.Height() == 300.0
  {
    assert RM.HasFlag(s.mode, RM.Right) && RM.HasFlag(s.mode, RM.Bottom);
    assert !RM.HasFlag(s.mode, RM.Left) && !RM.HasFlag(s.mode, RM.Top) && !RM.HasFlag(s.mode, RM.Move);
    assert DragCandidate(s, e) == Rect(s.layout.xMin, s.layout.yMin, s.layout.xMin + 400.0, s.layout.yMin + 300.0);
  }

  /** A complete drag: press, any number of moves, release. The mode ends
      `None` and the element is inside its parent after every move. */
  function Drag(s: Surface, down: PointerEvent, moves: seq<PointerEvent>, moveHandle: Rect, p: Rect): (r: Surface)
    ensures r.mode == RM.None
    ensures |moves| > 0 ==> r.layout.Inside(p)
  {
    PointerUp(MoveAll(PointerDown(s, down, moveHandle), moves, p))
  }

  /** Delivers pointer moves in order; the mode and the snapshot stay fixed. */
  function MoveAll(s: Surface, moves: seq<PointerEvent>, p: Rect): (r: Surface)
    ensures r.mode == s.mode && r.startRect == s.startRect && r.startPoint == s.startPoint
    ensures |moves| > 0 ==> r.layout.Inside(p)
    decreases |moves|
  {
    if moves == [] then s
    else MoveAll(PointerMove(s, moves[0], Some(p)), moves[1..], p)
  }
}
