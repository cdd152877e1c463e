/** The window chrome: a resizeable element with a title bar that serves as
    the move handle, a content container that swallows pointer-downs, a
    cursor derived from the resize mode, and size limits taken once from the
    panel it shows. */
module WindowChrome {
  import opened Common
  import opened Geometry
  import RM = ResizeModes
  import R = Resizeable

  /** The four resize cursor images. */
  datatype CursorKind = Horizontal | Vertical | DiagonalUp | DiagonalDown

  /** A cursor image: the one loaded for a kind, or the red fallback. */
  datatype Texture = Loaded(kind: CursorKind) | RedTexture

  /** The cursor style: the default cursor, or an image cursor. */
  datatype Cursor = DefaultCursor | ImageCursor(texture: Texture)

  /** A cursor assignment, and whether it logged a missing image. */
  datatype CursorChoice = CursorChoice(cursor: Cursor, errorLogged: bool)

  /** The cursor for a resize mode, given which cursor images are loaded.
      `None` and `Move` give the default cursor; each named edge or corner
      gives its image, or the red image and an error log when that image is
      missing; any other bit combination throws. */
  function SetCursor(m: RM.Mode, loaded: set<CursorKind>): (r: Result<CursorChoice>)
    ensures r.Failure? <==> m !in RM.Named
    ensures r.Failure? ==> r.error == ArgumentOutOfRange
    ensures m == RM.None || m == RM.Move ==> r == Success(CursorChoice(DefaultCursor, false))
    ensures r.Success? && r.value.cursor != DefaultCursor ==>
              && r.value.cursor.ImageCursor?
              && (r.value.cursor.texture.RedTexture? <==> r.value.errorLogged)
              && (r.value.cursor.texture.Loaded? ==> r.value.cursor.texture.kind in loaded)
  {
    if m == RM.None || m == RM.Move then Success(CursorChoice(DefaultCursor, false))
    else
      var kind :=
        if m == RM.Left || m == RM.Right then Some(Horizontal)
        else if m == RM.Top || m == RM.Bottom then Some(Vertical)
        else if m == RM.TopLeft || m == RM.BottomRight then Some(DiagonalDown)
        else if m == RM.TopRight || m == RM.BottomLeft then Some(DiagonalUp)
        else None;
      match kind
      case None => Failure(ArgumentOutOfRange)
      case Some(k) =>
        if k in loaded then Success(CursorChoice(ImageCursor(Loaded(k)), false))
        else Success(CursorChoice(ImageCursor(RedTexture), true))
  }

  /** The cursor kind a named resize mode asks for, read off its edges: one
      side edge is horizontal, one top/bottom edge is vertical, the corners on
      the falling diagonal (top-left, bottom-right) are diagonal-down and the
      others diagonal-up. */
  ghost predicate KindFitsEdges(m: RM.Mode, k: CursorKind) {
    var l := RM.HasFlag(m, RM.Left);
    var ri := RM.HasFlag(m, RM.Right);
    var t := RM.HasFlag(m, RM.Top);
    var b := RM.HasFlag(m, RM.Bottom);
    match k
    case Horizontal => (l || ri) && !t && !b
    case Vertical => (t || b) && !l && !ri
    case DiagonalDown => (t && l) || (b && ri)
    case DiagonalUp => (t && ri) || (b && l)
  }

  /** Every image cursor chosen for a mode is the one its edges call for;
      with every image loaded, each named edge or corner gets its image. */
  lemma CursorFollowsEdges(m: RM.Mode, loaded: set<CursorKind>)
    requires m in RM.Named && m != RM.None && m != RM.Move
    ensures SetCursor(m, loaded).Success?
    ensures SetCursor(m, loaded).value.cursor.ImageCursor?
    ensures forall k :: SetCursor(m, loaded).value.cursor == ImageCursor(Loaded(k)) ==> KindFitsEdges(m, k)
    ensures loaded == {Horizontal, Vertical, DiagonalUp, DiagonalDown} ==>
              exists k :: SetCursor(m, loaded).value.cursor == ImageCursor(Loaded(k)) && KindFitsEdges(m, k)
  {
    var c := SetCursor(m, loaded).value.cursor;
    if loaded == {Horizontal, Vertical, DiagonalUp, DiagonalDown} {
      assert c.texture.Loaded?;
      assert KindFitsEdges(m, c.texture.kind);
    }
  }

  /** The hit test of a narrow window can produce `Left | Right`, for which
      setting the cursor throws. */
  lemma NarrowWindowCursorThrows(width: real, handleWidth: int, titleBar: Rect, loaded: set<CursorKind>)
    requires 0.0 <= width <= 2.0 * handleWidth as real
    ensures SetCursor(R.HitTest(Vec(width / 2.0, handleWidth as real + 1.0), width, 2.0 * handleWidth as real + 3.0,
                                handleWidth, titleBar), loaded) == Failure(ArgumentOutOfRange)
  {
    R.NarrowElementHitsBothSides(width, handleWidth, titleBar);
  }

  /** A window: its title, the resizeable state, the title bar's rectangle in
      the window's local space (its move handle), whether it is shown, the
      element in its content slot, whether the one-time size-limit callback is
      still registered, and its current cursor style. */
  datatype Chrome = Chrome(
    title: string,
    surface: R.Surface,
    titleBar: Rect,
    visible: bool,
    content: nat,
    limitsPending: bool,
    cursor: Cursor)

  /** The margin of the hub's windows, also used as their padding. */
  const HubHandleWidth: int := 15

  /** A fresh window with no drag in progress, limits not yet applied (the
      style's defaults: no minimum, no maximum) and the default cursor. */
  function NewChrome(title: string, layout: Rect, titleBar: Rect, handleWidth: int, visible: bool, content: nat): (c: Chrome)
    ensures c.surface.mode == RM.None && c.surface.layout == layout
    ensures c.surface.handleWidth == handleWidth
    ensures c.limitsPending && c.visible == visible && c.content == content && c.title == title
  {
    Chrome(title,
           R.Surface(layout, RM.None, layout, Vec(0.0, 0.0), handleWidth, Limits(0.0, 0.0, None, None)),
           titleBar, visible, content, true, DefaultCursor)
  }

  /** Where a pointer-down lands within the window. */
  datatype Target = InContent | OnFrame

  /** Pointer-down on a window. The content container stops the event, so a
      press inside the content never starts a drag; elsewhere the press goes to
      the resize state machine with the title bar as the move handle. */
  function ChromePointerDown(c: Chrome, e: R.PointerEvent, target: Target): (r: Chrome)
    ensures target == InContent ==> r == c
    ensures target == OnFrame && e.button == R.LeftMouse ==>
              && r.surface.startRect == c.surface.layout
              && r.surface.mode == R.HitTest(e.localPosition, c.surface.layout.Width(), c.surface.layout.Height(),
                                             c.surface.handleWidth, c.titleBar)
    ensures r == c.(surface := r.surface)
  {
    if target == InContent then c
    else c.(surface := R.PointerDown(c.surface, e, c.titleBar))
  }

  /** The cursor shown while the pointer moves over a window: while idle it
      follows the mode the pointer hovers, during a drag the drag's mode. */
  function HoverCursor(c: Chrome, local: Vec, loaded: set<CursorKind>): (r: Result<CursorChoice>)
    ensures c.surface.mode == RM.None ==>
              r == SetCursor(R.HitTest(local, c.surface.layout.Width(), c.surface.layout.Height(),
                                       c.surface.handleWidth, c.titleBar), loaded)
    ensures c.surface.mode != RM.None ==> r == SetCursor(c.surface.mode, loaded)
  {
    SetCursor(ShownMode(c, local), loaded)
  }

  /** Pointer-move on a window: first the geometry step, then the cursor.
      A cursor that throws leaves the new geometry in place and the old
      cursor style. */
  function ChromePointerMove(c: Chrome, e: R.PointerEvent, parent: Option<Rect>, loaded: set<CursorKind>): (r: Completion<Chrome>)
    ensures r.state.surface == R.PointerMove(c.surface, e, parent)
    ensures parent.Some? ==> r.state.surface.layout.Inside(parent.value)
    ensures r.Thrown? ==> r.state.cursor == c.cursor && r.error == ArgumentOutOfRange
    ensures r.Thrown? <==> HoverCursor(c, e.localPosition, loaded).Failure?
    ensures r.Normal? ==> r.state == c.(surface := R.PointerMove(c.surface, e, parent),
                                        cursor := HoverCursor(c, e.localPosition, loaded).value.cursor)
    ensures r.Thrown? ==> r.state == c.(surface := R.PointerMove(c.surface, e, parent))
  {
    var moved := c.(surface := R.PointerMove(c.surface, e, parent));
    match HoverCursor(c, e.localPosition, loaded)
    case Failure(err) => Thrown(moved, err)
    case Success(choice) => Normal(moved.(cursor := choice.cursor))
  }

  /** The mode whose cursor a pointer move shows: the hovered hit-test
      mode while idle, the drag's mode during a drag. */
  function ShownMode(c: Chrome, local: Vec): RM.Mode {
    if c.surface.mode == RM.None
    then R.HitTest(local, c.surface.layout.Width(), c.surface.layout.Height(), c.surface.handleWidth, c.titleBar)
    else c.surface.mode
  }

  /** With every cursor image loaded, a pointer move succeeds exactly when
      the shown mode is a named one; it then shows the default cursor for
      `None` and `Move` and otherwise the image the mode's edges call for. */
  lemma MoveCursorFollowsEdges(c: Chrome, e: R.PointerEvent, parent: Option<Rect>)
    ensures var m := ShownMode(c, e.localPosition);
            var r := ChromePointerMove(c, e, parent, {Horizontal, Vertical, DiagonalUp, DiagonalDown});
            && (r.Normal? <==> m in RM.Named)
            && (m == RM.None || m == RM.Move ==> r.state.cursor == DefaultCursor)
            && (r.Normal? && m != RM.None && m != RM.Move ==>
                  exists k :: r.state.cursor == ImageCursor(Loaded(k)) && KindFitsEdges(m, k))
  {
    var m := ShownMode(c, e.localPosition);
    if m in RM.Named && m != RM.None && m != RM.Move {
      CursorFollowsEdges(m, {Horizontal, Vertical, DiagonalUp, DiagonalDown});
    }
  }

  /** An idle hover in the left margin only, away from the other three,
      shows the horizontal resize image when it is loaded. */
  lemma IdleHoverLeftMargin(c: Chrome, e: R.PointerEvent, parent: Option<Rect>, loaded: set<CursorKind>)
    requires c.surface.mode == RM.None && Horizontal in loaded
    requires var w := c.surface.handleWidth as real;
             && e.localPosition.x <= w && e.localPosition.x < c.surface.layout.Width() - w
             && w < e.localPosition.y < c.surface.layout.Height() - w
    ensures ChromePointerMove(c, e, parent, loaded)
            == Normal(c.(surface := R.PointerMove(c.surface, e, parent), cursor := ImageCursor(Loaded(Horizontal))))
  {
    var m := ShownMode(c, e.localPosition);
    RM.EdgeSetDeterminedByBits(m);
    assert m == RM.Left;
  }

  /** Pointer-up on a window ends the drag. */
  function ChromePointerUp(c: Chrome): (r: Chrome)
    ensures r.surface.mode == RM.None && r.surface.layout == c.surface.layout
    ensures r == c.(surface := r.surface)
  {
    c.(surface := R.PointerUp(c.surface))
  }

  /** The first geometry change of a window sets its limits to the panel's
      content bounds plus the measured padding (window size minus content
      size) and unregisters itself; later geometry changes do nothing. */
  function GeometryChanged(c: Chrome, minSize: Vec, maxSize: Vec, paddingH: real, paddingV: real): (r: Chrome)
    ensures !c.limitsPending ==> r == c
    ensures !r.limitsPending
    ensures c.limitsPending ==>
              && r.surface.limits == Limits(minSize.x + paddingH, minSize.y + paddingV,
                                            Some(maxSize.x + paddingH), Some(maxSize.y + paddingV))
              && r == c.(surface := r.surface, limitsPending := false)
  {
    if !c.limitsPending then c
    else
      c.(surface := c.surface.(limits := Limits(minSize.x + paddingH, minSize.y + paddingV,
                                                Some(maxSize.x + paddingH), Some(maxSize.y + paddingV))),
         limitsPending := false)
  }

  /** The limits are taken once: whatever later geometry changes report,
      the limits from the first one stay, and they are consistent whenever
      the panel's own bounds are. */
  lemma LimitsAppliedOnce(c: Chrome, min1: Vec, max1: Vec, ph1: real, pv1: real,
                          min2: Vec, max2: Vec, ph2: real, pv2: real)
    requires c.limitsPending
    ensures GeometryChanged(GeometryChanged(c, min1, max1, ph1, pv1), min2, max2, ph2, pv2)
            == GeometryChanged(c, min1, max1, ph1, pv1)
    ensures min1.x <= max1.x && min1.y <= max1.y ==>
              GeometryChanged(c, min1, max1, ph1, pv1).surface.limits.Consistent()
  {
  }
}
