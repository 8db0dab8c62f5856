/** Damage rectangles: what is presented after a stroke or a shape, against what was drawn. */
module Damage {
  import opened Bytes
  import opened Raster
  import opened Painting

  datatype Rect = Rect(x: nat, y: nat, width: nat, height: nat)

  datatype Tool = Brush | Straight | Rectangle | Oval | Eraser

  predicate InRect(r: Rect, x: int, y: int) {
    r.x <= x < r.x + r.width && r.y <= y < r.y + r.height
  }

  function Distance(a: int, b: int): (d: nat) {
    Abs(a - b)
  }

  /** The nearest artboard column. */
  function ClampX(x: int): (r: int)
    ensures 50 <= r < 337
    ensures forall v :: 50 <= v < 337 ==> Distance(x, r) <= Distance(x, v)
  {
    if x < 50 then 50 else if x >= 337 then 336 else x
  }

  /** The nearest artboard row. */
  function ClampY(y: int): (r: int)
    ensures 7 <= r < 220
    ensures forall v :: 7 <= v < 220 ==> Distance(y, r) <= Distance(y, v)
  {
    if y < 7 then 7 else if y >= 220 then 219 else y
  }

  /** Within `margin` of the box between two points. */
  predicate Near(x: int, y: int, fromX: int, fromY: int, toX: int, toY: int, margin: int) {
    Inside(x, y, Min(fromX, toX) - margin, Min(fromY, toY) - margin, Max(fromX, toX) + margin, Max(fromY, toY) + margin)
  }

  /** The bounding rectangle of two points, grown by `margin` and clamped. */
  function Around(fromX: int, fromY: int, toX: int, toY: int, margin: int): (r: Rect)
    requires 0 <= margin
    ensures 0 < r.width && 0 < r.height
    ensures forall x, y :: InRect(r, x, y) ==> OnArtboard(x, y)
    ensures forall x, y :: OnArtboard(x, y) && Near(x, y, fromX, fromY, toX, toY, margin) ==> InRect(r, x, y)
    ensures OnArtboard(fromX, fromY) && OnArtboard(toX, toY) ==>
      forall x, y :: InRect(r, x, y) ==> Near(x, y, fromX, fromY, toX, toY, margin)
  {
    var left, top := ClampX(Min(fromX, toX) - margin), ClampY(Min(fromY, toY) - margin);
    var right, bottom := ClampX(Max(fromX, toX) + margin), ClampY(Max(fromY, toY) + margin);
    Rect(left, top, right - left + 1, bottom - top + 1)
  }

  function BrushDamage(fromX: int, fromY: int, toX: int, toY: int, radius: nat): (r: Rect) {
    Around(fromX, fromY, toX, toY, radius)
  }

  function ShapeDamage(fromX: int, fromY: int, toX: int, toY: int): (r: Rect) {
    Around(fromX, fromY, toX, toY, 2)
  }

  // ---------------------------------------------------------------------------------------------
  // Where shapes reach

  /** Every pixel of `s` on the canvas lies within `margin` of the box between the two points. */
  ghost predicate Reaches(s: Shape, fromX: int, fromY: int, toX: int, toY: int, margin: nat) {
    forall x, y :: OnCanvas(x, y) && Covers(s, x, y) ==> Near(x, y, fromX, fromY, toX, toY, margin)
  }

  lemma LineReaches(l: Line, radius: nat, margin: nat)
    requires radius <= margin
    ensures Reaches(Path(l, Length(l) + 1, radius), l.x0, l.y0, l.x1, l.y1, margin)
  {
    hide Across, Down;
    var path := Path(l, Length(l) + 1, radius);
    forall x, y | Covers(path, x, y) ensures Near(x, y, l.x0, l.y0, l.x1, l.y1, margin) {
      var k :| 0 <= k < Length(l) + 1 && OnPen(l, k, radius, x, y);
      NoOvershoot(l, k);
    }
  }

  lemma DiscReaches(x0: int, y0: int, radius: nat)
    ensures Reaches(Disc(x0, y0, radius), x0, y0, x0, y0, radius)
  {
  }

  lemma EllipseReaches(x0: int, y0: int, x1: int, y1: int)
    ensures Reaches(Ellipse(x0, y0, x1, y1), x0, y0, x1, y1, 2)
  {
    hide NearEllipse;
    var l := Line(Min(x0, x1), Min(y0, y1), Max(x0, x1), Max(y0, y1));
    LineReaches(l, 1, 2);
  }

  /** A stroked rectangle at least as large as its border is the outer box less the inner one. */
  lemma EdgesAreFrame(x: nat, y: nat, width: nat, height: nat, t: nat, u: int, v: int)
    requires t <= width && t <= height && x + width < 0x1_0000_0000 && y + height < 0x1_0000_0000
    ensures Covers(Edges(x, y, width, height, t), u, v) <==>
      && Inside(u, v, x, y, x + width - 1, y + height - 1)
      && !Inside(u, v, x + t, y + t, x + width - 1 - t, y + height - 1 - t)
  {
    assert Wrap(x + width) == x + width && Wrap(y + height) == y + height;
    assert Wrap(y + height - t) == y + height - t && Wrap(x + width - t) == x + width - t;
    assert Wrap(x + t) == x + t && Wrap(y + t) == y + t;
    var a, b := Filled(x, y, width, t), Filled(x, Wrap(y + height - t), width, t);
    var c, d := Filled(x, y, t, height), Filled(Wrap(x + width - t), y, t, height);
    assert Covers(Either(a, b), u, v) <==> Covers(a, u, v) || Covers(b, u, v);
    assert Covers(Either(c, d), u, v) <==> Covers(c, u, v) || Covers(d, u, v);
  }

  /** What a shape tool draws between two artboard points. */
  function Drawn(tool: Tool, fromX: int, fromY: int, toX: int, toY: int): (s: Shape)
    requires OnArtboard(fromX, fromY) && OnArtboard(toX, toY)
  {
    var l := Line(fromX, fromY, toX, toY);
    var left, right, top, bottom := Min(fromX, toX), Max(fromX, toX), Min(fromY, toY), Max(fromY, toY);
    match tool
    case Straight => Path(l, Length(l) + 1, 1)
    case Rectangle =>
      if right - left + 1 < 2 || bottom - top + 1 < 2 then Path(l, Length(l) + 1, 1)
      else Edges(left, top, right - left + 1, bottom - top + 1, 2)
    case Oval => Ellipse(left, top, right, bottom)
    case _ => Path(l, 0, 0)
  }

  lemma DrawnReaches(tool: Tool, fromX: int, fromY: int, toX: int, toY: int)
    requires OnArtboard(fromX, fromY) && OnArtboard(toX, toY)
    ensures Reaches(Drawn(tool, fromX, fromY, toX, toY), fromX, fromY, toX, toY, 2)
  {
    hide Ellipse, Edges;
    var l := Line(fromX, fromY, toX, toY);
    var left, right, top, bottom := Min(fromX, toX), Max(fromX, toX), Min(fromY, toY), Max(fromY, toY);
    LineReaches(l, 1, 2);
    EllipseReaches(left, top, right, bottom);
    if tool == Rectangle && right - left + 1 >= 2 && bottom - top + 1 >= 2 {
      var edges := Edges(left, top, right - left + 1, bottom - top + 1, 2);
      forall x, y | Covers(edges, x, y) ensures Near(x, y, fromX, fromY, toX, toY, 2) {
        EdgesAreFrame(left, top, right - left + 1, bottom - top + 1, 2, x, y);
      }
    }
  }

  /** What each tool draws, pixel by pixel: a line with a three-pixel pen; a frame two pixels wide, or
      that line when the box is one pixel thin; the band around the inscribed ellipse, or the diagonal
      when the box is under four pixels; nothing for the brushes. */
  lemma DrawnIs(tool: Tool, fromX: int, fromY: int, toX: int, toY: int, x: int, y: int)
    requires OnArtboard(fromX, fromY) && OnArtboard(toX, toY)
    ensures
      var left, right, top, bottom := Min(fromX, toX), Max(fromX, toX), Min(fromY, toY), Max(fromY, toY);
      var l := Line(fromX, fromY, toX, toY);
      Covers(Drawn(tool, fromX, fromY, toX, toY), x, y) <==>
        match tool
        case Straight => PenTouches(l, x, y)
        case Rectangle =>
          if left == right || top == bottom then PenTouches(l, x, y) else OnFrame(left, top, right, bottom, x, y)
        case Oval =>
          if right - left < 4 || bottom - top < 4 then PenTouches(Line(left, top, right, bottom), x, y)
          else OnBand(left, top, right, bottom, x, y)
        case _ => false
  {
    hide Form, Target, Tolerance, Length, Edges;
    var left, right, top, bottom := Min(fromX, toX), Max(fromX, toX), Min(fromY, toY), Max(fromY, toY);
    match tool
    case Rectangle =>
      if left != right && top != bottom {
        EdgesAreFrame(left, top, right - left + 1, bottom - top + 1, 2, x, y);
      }
    case Oval =>
      if right - left >= 4 && bottom - top >= 4 {
        RingIsBand(left, top, right, bottom, x, y);
      }
    case _ =>
  }

  /** Within one pixel, in both directions, of a visited point of the line. */
  ghost predicate PenTouches(l: Line, x: int, y: int) {
    exists k :: 0 <= k < Length(l) + 1 && OnPen(l, k, 1, x, y)
  }

  /** Two pixels wide along the inside of the box. */
  predicate OnFrame(left: int, top: int, right: int, bottom: int, x: int, y: int) {
    left <= x <= right && top <= y <= bottom && (x < left + 2 || right - 2 < x || y < top + 2 || bottom - 2 < y)
  }

  /** In the box, and off the ellipse's equation by twice the sum of the squared half axes at most. */
  predicate OnBand(left: int, top: int, right: int, bottom: int, x: int, y: int) {
    var a, b := (right - left) / 2, (bottom - top) / 2;
    var u, v := x - (left + a), y - (top + b);
    && left <= x <= right && top <= y <= bottom
    && -2 * (a * a + b * b) <= u * u * b * b + v * v * a * a - a * a * b * b <= 2 * (a * a + b * b)
  }

  lemma RingIsBand(left: int, top: int, right: int, bottom: int, x: int, y: int)
    requires left <= right && top <= bottom
    ensures Covers(Ring(left, top, right, bottom), x, y) <==> OnBand(left, top, right, bottom, x, y)
  {
    var a, b := (right - left) / 2, (bottom - top) / 2;
    BandIs(x - (left + a), y - (top + b), a, b);
  }

  lemma BandIs(u: int, v: int, a: nat, b: nat)
    ensures NearEllipse(u, v, a, b) <==>
      -2 * (a * a + b * b) <= u * u * b * b + v * v * a * a - a * a * b * b <= 2 * (a * a + b * b)
  {
  }

  /** The ellipse touches the middle of each side of its box, and is symmetric about its centre. */
  lemma RingIsSymmetric(left: int, top: int, right: int, bottom: int, u: int, v: int)
    requires left <= right && top <= bottom
    ensures
      var ring, a, b := Ring(left, top, right, bottom), (right - left) / 2, (bottom - top) / 2;
      var cx, cy := left + a, top + b;
      && Covers(ring, cx - a, cy) && Covers(ring, cx + a, cy) && Covers(ring, cx, cy - b) && Covers(ring, cx, cy + b)
      && (Abs(u) <= a && Abs(v) <= b ==>
            && (Covers(ring, cx + u, cy + v) <==> Covers(ring, cx - u, cy + v))
            && (Covers(ring, cx + u, cy + v) <==> Covers(ring, cx + u, cy - v)))
  {
    hide NearEllipse;
    var a, b := (right - left) / 2, (bottom - top) / 2;
    EllipseEven(u, v, a, b);
    EllipseTouches(a, b);
  }

  lemma EllipseEven(u: int, v: int, a: nat, b: nat)
    ensures NearEllipse(u, v, a, b) == NearEllipse(-u, v, a, b) == NearEllipse(u, -v, a, b)
  {
    hide Target, Tolerance;
    assert (-u) * (-u) == u * u && (-v) * (-v) == v * v;
    assert Form(-u, v, a, b) == Form(u, v, a, b) == Form(u, -v, a, b);
  }

  lemma EllipseTouches(a: nat, b: nat)
    ensures NearEllipse(a, 0, a, b) && NearEllipse(-(a as int), 0, a, b)
    ensures NearEllipse(0, b, a, b) && NearEllipse(0, -(b as int), a, b)
  {
    hide NearEllipse;
    AxisEnds(a, b);
    EllipseEven(a, 0, a, b);
    EllipseEven(0, b, a, b);
  }

  lemma AxisEnds(a: nat, b: nat)
    ensures NearEllipse(a, 0, a, b) && NearEllipse(0, b, a, b)
  {
    assert 0 <= a * a && 0 <= b * b;
    assert Form(a, 0, a, b) == Target(a, b);
    assert b * b * a * a == a * a * b * b;
    assert Form(0, b, a, b) == Target(a, b);
  }

  // ---------------------------------------------------------------------------------------------
  // Presented exactly

  /** Every artboard pixel that changed is presented, and nothing outside the artboard is. */
  ghost predicate Presented(before: seq<nat>, after: seq<nat>, r: Rect) {
    && |before| == |after| == 105_000 && 0 < r.width && 0 < r.height
    && (forall x, y :: InRect(r, x, y) ==> OnArtboard(x, y))
    && (forall x, y :: OnArtboard(x, y) && Pixel(before, x, y) != Pixel(after, x, y) ==> InRect(r, x, y))
  }

  lemma DamageCovers(
    before: seq<nat>, after: seq<nat>, s: Shape, fromX: int, fromY: int, toX: int, toY: int, margin: nat, color: nat)
    requires Painted(before, after, s, color) && Reaches(s, fromX, fromY, toX, toY, margin)
    ensures Presented(before, after, Around(fromX, fromY, toX, toY, margin))
  {
    hide Covers;
  }

  /** A drawn pixel is presented exactly when it lies on the artboard: a pen at the edge also paints
      pixels beside the artboard, and those are left unpresented. */
  lemma DrawnIsPresentedIff(
    s: Shape, fromX: int, fromY: int, toX: int, toY: int, margin: nat, x: int, y: int)
    requires Reaches(s, fromX, fromY, toX, toY, margin) && OnCanvas(x, y) && Covers(s, x, y)
    ensures InRect(Around(fromX, fromY, toX, toY, margin), x, y) <==> OnArtboard(x, y)
  {
    hide Covers;
  }

  /** Such a pixel exists: a brush of radius 2 at the artboard's corner. */
  lemma EdgeStrokeEscapes()
    ensures OnArtboard(50, 7) && Covers(Disc(50, 7, 2), 48, 7) && OnCanvas(48, 7)
    ensures !InRect(BrushDamage(50, 7, 50, 7, 2), 48, 7)
  {
    DiscReaches(50, 7, 2);
    DrawnIsPresentedIff(Disc(50, 7, 2), 50, 7, 50, 7, 2, 48, 7);
  }

  // ---------------------------------------------------------------------------------------------
  // The editor

  method DrawShape(canvas: Canvas, tool: Tool, fromX: int, fromY: int, toX: int, toY: int, color: nat)
    requires canvas.pixels.Length == 105_000 && OnArtboard(fromX, fromY) && OnArtboard(toX, toY)
    modifies canvas.pixels
    ensures Painted(old(canvas.pixels[..]), canvas.pixels[..], Drawn(tool, fromX, fromY, toX, toY), color)
  {
    hide Painted, Ellipse, Edges, Length;
    var left, right, top, bottom := Min(fromX, toX), Max(fromX, toX), Min(fromY, toY), Max(fromY, toY);
    if tool == Straight {
      ghost var visited := canvas.DrawLine(Line(fromX, fromY, toX, toY), 2, color);
    } else if tool == Rectangle {
      var width, height := right - left + 1, bottom - top + 1;
      if width < 2 || height < 2 {
        ghost var visited := canvas.DrawLine(Line(fromX, fromY, toX, toY), 2, color);
      } else {
        canvas.StrokeRect(left, top, width, height, 2, color);
      }
    } else if tool == Oval {
      canvas.DrawEllipse(left, top, right, bottom, color);
    } else {
      NothingYet(canvas.pixels[..], Line(fromX, fromY, toX, toY), 0, color);
    }
  }

  /** The drawing state of the event loop. */
  class Editor {
    const canvas: Canvas
    var tool: Tool
    var radius: nat    // of the selected brush size
    var color: nat
    var drawing: bool
    var originX: int
    var originY: int
    var previousX: int
    var previousY: int

    predicate Valid()
      reads this
    {
      drawing ==> OnArtboard(originX, originY) && OnArtboard(previousX, previousY)
    }

    constructor (canvas: Canvas)
      ensures Valid() && this.canvas == canvas && !drawing && tool == Brush && radius == 4 && color == 0x7659D7
    {
      this.canvas := canvas;
      tool, radius, color, drawing := Brush, 4, 0x7659D7, false;
      originX, originY, previousX, previousY := 0, 0, 0, 0;
    }

    /** The eraser has a size of its own, and paints paper. */
    function PenRadius(): (r: nat)
      reads this
    {
      if tool == Eraser then 6 else radius
    }

    function PenColor(): (c: nat)
      reads this
    {
      if tool == Eraser then 0xFFFFFF else color
    }

    /** A click in the toolbar or the palette. */
    method Choose(tool: Tool, radius: nat, color: nat)
      requires Valid()
      modifies this`tool, this`radius, this`color
      ensures Valid() && this.tool == tool && this.radius == radius && this.color == color
    {
      this.tool, this.radius, this.color := tool, radius, color;
    }

    /** The button goes down on the artboard. */
    method Press(x: int, y: int) returns (damage: Option<Rect>)
      requires Valid() && OnArtboard(x, y) && canvas.pixels.Length == 105_000
      modifies this`drawing, this`originX, this`originY, this`previousX, this`previousY, canvas.pixels
      ensures Valid() && drawing && originX == previousX == x && originY == previousY == y
      ensures damage.Some? <==> tool in {Brush, Eraser}
      ensures damage.Some? ==> damage.value == Around(x, y, x, y, if tool == Eraser then 6 else radius)
      ensures damage.None? ==> canvas.pixels[..] == old(canvas.pixels[..])
      ensures damage.Some? ==>
        && Painted(old(canvas.pixels[..]), canvas.pixels[..], Disc(x, y, if tool == Eraser then 6 else radius),
                   if tool == Eraser then 0xFFFFFF else color)
        && Presented(old(canvas.pixels[..]), canvas.pixels[..], damage.value)
    {
      hide Painted, Presented, Reaches;
      drawing, originX, originY := true, ClampX(x), ClampY(y);
      previousX, previousY := originX, originY;
      if tool == Brush || tool == Eraser {
        damage := Some(BrushDamage(originX, originY, originX, originY, PenRadius()));
        canvas.FillCircle(originX, originY, PenRadius(), PenColor());
        DiscReaches(x, y, PenRadius());
        DamageCovers(old(canvas.pixels[..]), canvas.pixels[..], Disc(x, y, PenRadius()), x, y, x, y, PenRadius(), PenColor());
      } else {
        damage := None;
      }
    }

    /** The pointer moves: a stroke from the previous point, if one is being drawn. */
    method Motion(x: int, y: int) returns (damage: Option<Rect>)
      requires Valid() && canvas.pixels.Length == 105_000
      modifies this`previousX, this`previousY, canvas.pixels
      ensures Valid() && (damage.Some? <==> drawing && tool in {Brush, Eraser})
      ensures damage.None? ==> canvas.pixels[..] == old(canvas.pixels[..]) && previousX == old(previousX) && previousY == old(previousY)
      ensures damage.Some? ==>
        var l := Line(old(previousX), old(previousY), ClampX(x), ClampY(y));
        && previousX == l.x1 && previousY == l.y1
        && damage.value == Around(l.x0, l.y0, l.x1, l.y1, if tool == Eraser then 6 else radius)
        && Painted(old(canvas.pixels[..]), canvas.pixels[..], Path(l, Length(l) + 1, if tool == Eraser then 6 else radius),
                   if tool == Eraser then 0xFFFFFF else color)
        && Presented(old(canvas.pixels[..]), canvas.pixels[..], damage.value)
    {
      hide Painted, Presented, Reaches, Length;
      damage := None;
      if drawing && (tool == Brush || tool == Eraser) {
        var l := Line(previousX, previousY, ClampX(x), ClampY(y));
        damage := Some(BrushDamage(previousX, previousY, l.x1, l.y1, PenRadius()));
        ghost var visited := canvas.DrawLine(l, PenRadius() * 2 + 1, PenColor());
        previousX, previousY := l.x1, l.y1;
        LineReaches(l, PenRadius(), PenRadius());
        DamageCovers(old(canvas.pixels[..]), canvas.pixels[..], Path(l, Length(l) + 1, PenRadius()),
          l.x0, l.y0, l.x1, l.y1, PenRadius(), PenColor());
      }
    }

    /** The button goes up: a shape from the origin, if one is being drawn. */
    method Release(x: int, y: int) returns (damage: Option<Rect>)
      requires Valid() && canvas.pixels.Length == 105_000
      modifies this`drawing, canvas.pixels
      ensures Valid() && !drawing && (damage.Some? <==> old(drawing) && tool in {Straight, Rectangle, Oval})
      ensures damage.None? ==> canvas.pixels[..] == old(canvas.pixels[..])
      ensures damage.Some? ==>
        && damage.value == Around(originX, originY, ClampX(x), ClampY(y), 2)
        && Painted(old(canvas.pixels[..]), canvas.pixels[..], Drawn(tool, originX, originY, ClampX(x), ClampY(y)), color)
        && Presented(old(canvas.pixels[..]), canvas.pixels[..], damage.value)
    {
      hide Painted, Presented, Reaches, Drawn;
      damage := None;
      if drawing {
        if tool == Straight || tool == Rectangle || tool == Oval {
          var toX, toY := ClampX(x), ClampY(y);
          damage := Some(ShapeDamage(originX, originY, toX, toY));
          DrawShape(canvas, tool, originX, originY, toX, toY, color);
          DrawnReaches(tool, originX, originY, toX, toY);
          DamageCovers(old(canvas.pixels[..]), canvas.pixels[..], Drawn(tool, originX, originY, toX, toY),
            originX, originY, toX, toY, 2, color);
        }
        drawing := false;
      }
    }
  }
}
