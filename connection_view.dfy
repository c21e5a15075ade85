/** How one connection is drawn: its style by type and highlight, the three segments
    of a parent-child line, the thickness of a straight line, and the decoration at
    the line's midpoint. */
module ConnectionView {
  import opened Members
  import opened TreeConnections

  /** A glow is a drop shadow of some radius in some colour. */
  datatype Glow = NoGlow | DropShadow(radius: int, color: string)

  datatype Style = Style(backgroundColor: string, opacity: real, filter: Glow)

  /** The style table: each type has its own colour, a higher opacity when
      highlighted, and a glow only when highlighted. */
  function ConnectionStyle(kind: ConnectionKind, highlighted: bool): Style {
    match kind
    case ParentChild =>
      Style("hsl(var(--primary))", if highlighted then 1.0 else 0.6,
            if highlighted then DropShadow(8, "hsl(var(--primary-glow))") else NoGlow)
    case Spouse =>
      Style("hsl(var(--cultural))", if highlighted then 1.0 else 0.5,
            if highlighted then DropShadow(6, "hsl(var(--cultural))") else NoGlow)
    case Sibling =>
      Style("hsl(var(--accent))", if highlighted then 0.8 else 0.4,
            if highlighted then DropShadow(4, "hsl(var(--accent))") else NoGlow)
  }

  /** Highlighting raises the opacity and adds a glow for every type, and leaves the
      colour alone. */
  lemma HighlightStandsOut(kind: ConnectionKind)
    ensures ConnectionStyle(kind, true).opacity > ConnectionStyle(kind, false).opacity
    ensures ConnectionStyle(kind, true).filter.DropShadow? && ConnectionStyle(kind, false).filter == NoGlow
    ensures ConnectionStyle(kind, true).backgroundColor == ConnectionStyle(kind, false).backgroundColor
    ensures 0.0 < ConnectionStyle(kind, false).opacity && ConnectionStyle(kind, true).opacity <= 1.0
  {
  }

  /** An axis-aligned box of the line, placed by its top-left corner. */
  datatype Box = Box(left: real, top: real, width: real, height: real)

  function Abs(x: real): real {
    if x < 0.0 then -x else x
  }

  function Min(a: real, b: real): real {
    if a <= b then a else b
  }

  function MidY(from: Point, to: Point): real {
    from.y + (to.y - from.y) * 0.5
  }

  /** The parent-child line: down from the parent to half way, across, and down to
      the child; each stroke is 2 wide. */
  function LSegments(from: Point, to: Point): seq<Box> {
    var midY := MidY(from, to);
    [ Box(from.x - 1.0, from.y, 2.0, Abs(midY - from.y)),
      Box(Min(from.x, to.x), midY - 1.0, Abs(to.x - from.x), 2.0),
      Box(to.x - 1.0, midY, 2.0, Abs(to.y - midY)) ]
  }

  /** The turn is half way down; the two vertical strokes are equally tall and
      together span the height between the two points; the first starts at the
      parent and the second at the turn, each centred on its point's x. */
  lemma VerticalStrokes(from: Point, to: Point)
    ensures var segs := LSegments(from, to);
      MidY(from, to) - from.y == to.y - MidY(from, to) &&
      segs[0].height == segs[2].height &&
      segs[0].height + segs[2].height == Abs(to.y - from.y) &&
      segs[0].top == from.y && segs[2].top == MidY(from, to) &&
      segs[0].left + segs[0].width / 2.0 == from.x && segs[2].left + segs[2].width / 2.0 == to.x
  {
  }

  /** The horizontal stroke spans exactly from the smaller x to the larger, centred
      on the turn. */
  lemma HorizontalStroke(from: Point, to: Point)
    ensures var h := LSegments(from, to)[1];
      h.left <= from.x && h.left <= to.x &&
      (h.left == from.x || h.left == to.x) &&
      h.left + h.width == (if from.x <= to.x then to.x else from.x) &&
      h.top + h.height / 2.0 == MidY(from, to)
  {
  }

  /** A straight line's thickness: spouse lines are thicker. */
  function Thickness(kind: ConnectionKind): int {
    if kind == Spouse then 3 else 2
  }

  /** The drawing of a connection: three boxes for parent-child, one straight line
      from `from` (whose length and angle are not modelled) otherwise. */
  datatype Drawing = LShape(segments: seq<Box>) | Straight(left: real, top: real, thickness: int)

  function Render(from: Point, to: Point, kind: ConnectionKind): Drawing {
    if kind == ParentChild then LShape(LSegments(from, to)) else Straight(from.x, from.y, Thickness(kind))
  }

  /** Parent-child lines are drawn as three strokes 2 wide, the others as one straight
      line from `from`; a spouse line is 3 thick, wider than any stroke of the other
      kinds, and a sibling line 2 thick like the parent-child strokes. */
  lemma RenderedStrokes(from: Point, to: Point, kind: ConnectionKind)
    ensures Render(from, to, kind).LShape? <==> kind == ParentChild
    ensures kind == ParentChild ==> var segs := Render(from, to, kind).segments;
      |segs| == 3 && segs[0].width == 2.0 && segs[1].height == 2.0 && segs[2].width == 2.0
    ensures kind != ParentChild ==> var d := Render(from, to, kind);
      d.left == from.x && d.top == from.y && (d.thickness == 3 <==> kind == Spouse) && (d.thickness == 2 <==> kind == Sibling)
    ensures forall k: ConnectionKind :: k != Spouse && Render(from, to, k).Straight? ==>
      Render(from, to, Spouse).thickness > Render(from, to, k).thickness
  {
  }

  /** The midpoint decoration: a dot for spouses, scaled up when highlighted, and an
      arrow label for parent-child lines. */
  datatype Decoration = SpouseDot(left: real, top: real, scale: real) | ChildArrow(left: real, top: real)

  function MidX(from: Point, to: Point): real {
    from.x + (to.x - from.x) * 0.5
  }

  function Decorations(from: Point, to: Point, kind: ConnectionKind, highlighted: bool): seq<Decoration> {
    match kind
    case Spouse => [SpouseDot(MidX(from, to) - 4.0, MidY(from, to) - 4.0, if highlighted then 1.5 else 1.0)]
    case ParentChild => [ChildArrow(MidX(from, to) - 8.0, MidY(from, to) - 6.0)]
    case Sibling => []
  }

  /** Only spouse lines get the dot and only parent-child lines the arrow; the 8-wide
      dot is centred on the midpoint of the two points. */
  lemma DecorationPlacement(from: Point, to: Point, kind: ConnectionKind, highlighted: bool)
    ensures var d := Decorations(from, to, kind, highlighted);
      |d| <= 1 &&
      (|d| == 1 && d[0].SpouseDot? <==> kind == Spouse) &&
      (|d| == 1 && d[0].ChildArrow? <==> kind == ParentChild) &&
      (kind == Spouse ==> d[0].left + 4.0 == (from.x + to.x) / 2.0 && d[0].top + 4.0 == (from.y + to.y) / 2.0) &&
      (kind == ParentChild ==> d[0].left == (from.x + to.x) / 2.0 - 8.0 && d[0].top == (from.y + to.y) / 2.0 - 6.0)
  {
  }

  /** Every connection the tree produces is drawn with a decoration, and a spouse
      connection is drawn as a 3-thick straight line. */
  lemma TreeConnectionsDecorated(ms: seq<Member>, highlighted: bool)
    ensures forall c :: c in ConnectionsOf(ms) ==> |Decorations(c.from, c.to, c.kind, highlighted)| == 1
    ensures forall c :: c in ConnectionsOf(ms) && c.kind == Spouse ==> Render(c.from, c.to, c.kind) == Straight(c.from.x, c.from.y, 3)
  {
    ConnectionShapes(ms);
  }
}
