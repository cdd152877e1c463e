/** The resize-mode flag byte of a resizeable element: four edge bits that
    combine into corners, and a separate bit for moving the whole element. */
module ResizeModes {

  /** The enum's underlying type is a byte. */
  type Mode = bv8

  const None: Mode        := 0x00

  const Left: Mode        := 0x08
  const Right: Mode       := 0x04
  const Top: Mode         := 0x02
  const Bottom: Mode      := 0x01

  const TopLeft: Mode     := 0x0A
  const TopRight: Mode    := 0x06
  const BottomLeft: Mode  := 0x09
  const BottomRight: Mode := 0x05

  const Move: Mode        := 0x10

  /** The four edge bits together. */
  const EdgeMask: Mode := Left | Right | Top | Bottom

  /** `Enum.HasFlag`: every bit of `flag` is set in `m`. */
  predicate HasFlag(m: Mode, flag: Mode) {
    m & flag == flag
  }

  /** `m` uses edge bits only (this includes `None`). */
  predicate IsEdgeSet(m: Mode) {
    m & !EdgeMask == 0
  }

  /** The values a hit test can return: a combination of edges, or `Move`. */
  predicate IsHitResult(m: Mode) {
    IsEdgeSet(m) || m == Move
  }

  /** The named members of the enum. */
  const Named: set<Mode> :=
    {None, Left, Right, Top, Bottom, TopLeft, TopRight, BottomLeft, BottomRight, Move}

  /** Each corner is the union of its two edges; the edges are four distinct
      single bits and `Move` shares no bit with any of them. */
  lemma FlagLayout()
    ensures None == 0
    ensures TopLeft == Top | Left && TopRight == Top | Right
    ensures BottomLeft == Bottom | Left && BottomRight == Bottom | Right
    ensures Left & Right == 0 && Left & Top == 0 && Left & Bottom == 0
    ensures Right & Top == 0 && Right & Bottom == 0 && Top & Bottom == 0
    ensures Move & EdgeMask == 0
    ensures EdgeMask == 0x0F
  {
  }

  /** The edge part of a hit test: the bits are ADDED, as the source does;
      since they are distinct single bits, adding is the same as or-ing. */
  function EdgeBits(isLeft: bool, isRight: bool, isTop: bool, isBottom: bool): (m: Mode)
    ensures IsEdgeSet(m)
    ensures HasFlag(m, Left) <==> isLeft
    ensures HasFlag(m, Right) <==> isRight
    ensures HasFlag(m, Top) <==> isTop
    ensures HasFlag(m, Bottom) <==> isBottom
    ensures m == None <==> !isLeft && !isRight && !isTop && !isBottom
  {
    (if isLeft then 0x08 else 0) + (if isRight then 0x04 else 0)
      + (if isTop then 0x02 else 0) + (if isBottom then 0x01 else 0)
  }

  /** An edge combination is fully described by its four edge bits. */
  lemma EdgeSetDeterminedByBits(m: Mode)
    requires IsEdgeSet(m)
    ensures m == EdgeBits(HasFlag(m, Left), HasFlag(m, Right), HasFlag(m, Top), HasFlag(m, Bottom))
  {
  }
}
