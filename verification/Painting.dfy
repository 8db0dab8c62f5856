/** The drawing routines on the pixel buffer, and the damage rectangles presented after them. */
module Painting {
  import opened Raster

  // The canvas is 420 by 250 pixels with rows 420 apart, which `main` insists on.

  predicate OnCanvas(x: int, y: int) {
    0 <= x < 420 && 0 <= y < 250
  }

  predicate OnArtboard(x: int, y: int) {
    50 <= x < 337 && 7 <= y < 220
  }

  function Pixel(s: seq<nat>, x: int, y: int): (color: nat)
    requires |s| == 105_000 && OnCanvas(x, y)
  {
    s[y * 420 + x]
  }

  /** Exactly the pixels of `shape` that lie on the canvas have been set to `color`. */
  ghost predicate Painted(before: seq<nat>, after: seq<nat>, shape: Shape, color: nat) {
    && |before| == |after| == 105_000
    && forall x, y :: OnCanvas(x, y) ==>
         Pixel(after, x, y) == if Covers(shape, x, y) then color else Pixel(before, x, y)
  }

  ghost predicate SameShape(a: Shape, b: Shape) {
    forall x, y :: OnCanvas(x, y) ==> (Covers(a, x, y) <==> Covers(b, x, y))
  }

  lemma PaintedSame(before: seq<nat>, after: seq<nat>, a: Shape, b: Shape, color: nat)
    requires Painted(before, after, a, color) && SameShape(a, b)
    ensures Painted(before, after, b, color)
  {
    hide Covers;
  }

  lemma PaintedTwice(
    before: seq<nat>, middle: seq<nat>, after: seq<nat>, a: Shape, b: Shape, both: Shape, color: nat)
    requires Painted(before, middle, a, color) && Painted(middle, after, b, color)
    requires SameShape(both, Either(a, b))
    ensures Painted(before, after, both, color)
  {
    forall x, y | OnCanvas(x, y)
      ensures Pixel(after, x, y) == if Covers(both, x, y) then color else Pixel(before, x, y)
    {
      assert Covers(both, x, y) <==> Covers(Either(a, b), x, y);
    }
  }

  /** Nothing has been passed when a scan starts at or above the shape's top row. */
  lemma ScanStarts(s: seq<nat>, shape: Shape, row: int, column: int, color: nat)
    requires |s| == 105_000
    requires forall x, y :: OnCanvas(x, y) && Covers(shape, x, y) ==> row <= y && column <= x
    ensures Painted(s, s, Before(shape, row, column), color)
  {
  }

  /** The scan moves to the next row once it is past the shape's last column. */
  lemma ScanRow(
    before: seq<nat>, after: seq<nat>, shape: Shape, row: int, column: int, left: int, color: nat)
    requires Painted(before, after, Before(shape, row, column), color)
    requires forall x, y :: OnCanvas(x, y) && Covers(shape, x, y) ==> left <= x < column
    ensures Painted(before, after, Before(shape, row + 1, left), color)
  {
    forall x, y | OnCanvas(x, y)
      ensures Covers(Before(shape, row, column), x, y) <==> Covers(Before(shape, row + 1, left), x, y)
    {
      assert Covers(shape, x, y) ==> left <= x < column;
    }
    PaintedSame(before, after, Before(shape, row, column), Before(shape, row + 1, left), color);
  }

  lemma ScanEnds(before: seq<nat>, after: seq<nat>, shape: Shape, row: int, column: int, color: nat)
    requires Painted(before, after, Before(shape, row, column), color)
    requires forall x, y :: OnCanvas(x, y) && Covers(shape, x, y) ==> y < row
    ensures Painted(before, after, shape, color)
  {
    forall x, y | OnCanvas(x, y)
      ensures Covers(Before(shape, row, column), x, y) <==> Covers(shape, x, y)
    {
      assert Covers(shape, x, y) ==> y < row;
    }
    PaintedSame(before, after, Before(shape, row, column), shape, color);
  }

  /** One pixel of a scan: painted exactly when the shape covers it. */
  lemma ScanPixel(
    before: seq<nat>, now: seq<nat>, after: seq<nat>, shape: Shape, row: int, column: int, color: nat)
    requires Painted(before, now, Before(shape, row, column), color)
    requires |after| == 105_000
    requires Covers(shape, column, row) ==> Painted(now, after, Box(column, row, column, row), color)
    requires !Covers(shape, column, row) ==> after == now
    ensures Painted(before, after, Before(shape, row, column + 1), color)
  {
    forall x, y | OnCanvas(x, y)
      ensures Pixel(after, x, y) == if Covers(Before(shape, row, column + 1), x, y) then color else Pixel(before, x, y)
    {
      assert Pixel(now, x, y) == if Covers(Before(shape, row, column), x, y) then color else Pixel(before, x, y);
      if Covers(shape, column, row) {
        assert Pixel(after, x, y) == if Covers(Box(column, row, column, row), x, y) then color else Pixel(now, x, y);
      }
    }
  }

  /** 32-bit unsigned wrap-around. */
  function Wrap(n: int): (r: nat)
    ensures r < 0x1_0000_0000
  {
    n % 0x1_0000_0000
  }

  /** Halving as C does it, towards zero. */
  function Half(n: int): (r: int)
    ensures 2 * Abs(r) <= Abs(n) <= 2 * Abs(r) + 1 && (0 <= n ==> 0 <= r) && (n <= 0 ==> r <= 0)
  {
    if n < 0 then -(-n / 2) else n / 2
  }

  function Filled(x: nat, y: nat, width: nat, height: nat): (s: Shape) {
    Box(x, y, Wrap(x + width) - 1, Wrap(y + height) - 1)
  }

  function Edges(x: nat, y: nat, width: nat, height: nat, thickness: nat): (s: Shape) {
    Either(
      Either(Filled(x, y, width, thickness), Filled(x, Wrap(y + height - thickness), width, thickness)),
      Either(Filled(x, y, thickness, height), Filled(Wrap(x + width - thickness), y, thickness, height)))
  }

  class Canvas {
    const pixels: array<nat>

    constructor (pixels: array<nat>)
      ensures this.pixels == pixels
    {
      this.pixels := pixels;
    }

    method PutPixel(x: int, y: int, color: nat)
      requires pixels.Length == 105_000
      modifies pixels
      ensures Painted(old(pixels[..]), pixels[..], Box(x, y, x, y), color)
    {
      ghost var before := pixels[..];
      if x >= 0 && y >= 0 && x < 420 && y < 250 {
        pixels[y * 420 + x] := color;
        assert pixels[..] == before[y * 420 + x := color];
      }
    }

    method FillRect(x: nat, y: nat, width: nat, height: nat, color: nat)
      requires pixels.Length == 105_000
      modifies pixels
      ensures Painted(old(pixels[..]), pixels[..], Filled(x, y, width, height), color)
    {
      hide Painted;
      ghost var shape := Filled(x, y, width, height);
      var row := y;
      ScanStarts(pixels[..], shape, y, x, color);
      while row < Wrap(y + height) && row < 250
        invariant y <= row
        invariant Painted(old(pixels[..]), pixels[..], Before(shape, row, x), color)
      {
        var column := x;
        while column < Wrap(x + width) && column < 420
          invariant x <= column
          invariant Painted(old(pixels[..]), pixels[..], Before(shape, row, column), color)
        {
          ghost var now := pixels[..];
          PutPixel(column, row, color);
          ScanPixel(old(pixels[..]), now, pixels[..], shape, row, column, color);
          column := column + 1;
        }
        ScanRow(old(pixels[..]), pixels[..], shape, row, column, x, color);
        row := row + 1;
      }
      ScanEnds(old(pixels[..]), pixels[..], shape, row, x, color);
    }

    method StrokeRect(x: nat, y: nat, width: nat, height: nat, thickness: nat, color: nat)
      requires pixels.Length == 105_000
      modifies pixels
      ensures
        if width == 0 || height == 0 || thickness == 0 then pixels[..] == old(pixels[..])
        else Painted(old(pixels[..]), pixels[..], Edges(x, y, width, height, thickness), color)
    {
      hide Painted;
      if width == 0 || height == 0 || thickness == 0 {
        return;
      }
      ghost var a := Filled(x, y, width, thickness);
      ghost var b := Filled(x, Wrap(y + height - thickness), width, thickness);
      ghost var c := Filled(x, y, thickness, height);
      ghost var d := Filled(Wrap(x + width - thickness), y, thickness, height);
      FillRect(x, y, width, thickness, color);
      ghost var one := pixels[..];
      FillRect(x, Wrap(y + height - thickness), width, thickness, color);
      ghost var two := pixels[..];
      FillRect(x, y, thickness, height, color);
      ghost var three := pixels[..];
      FillRect(Wrap(x + width - thickness), y, thickness, height, color);
      PaintedTwice(old(pixels[..]), one, two, a, b, Either(a, b), color);
      PaintedTwice(two, three, pixels[..], c, d, Either(c, d), color);
      PaintedTwice(old(pixels[..]), two, pixels[..], Either(a, b), Either(c, d), Edges(x, y, width, height, thickness), color);
    }

    method FillCircle(centerX: int, centerY: int, radius: int, color: nat)
      requires pixels.Length == 105_000
      modifies pixels
      ensures Painted(old(pixels[..]), pixels[..], Disc(centerX, centerY, radius), color)
    {
      hide Painted, InDisc;
      ghost var shape := Disc(centerX, centerY, radius);
      var squared := radius * radius;
      var y := -radius;
      ScanStarts(pixels[..], shape, centerY + y, centerX - radius, color);
      while y <= radius
        invariant Painted(old(pixels[..]), pixels[..], Before(shape, centerY + y, centerX - radius), color)
        invariant y <= radius ==> -radius <= y
        invariant y > radius && -radius <= radius ==> y == radius + 1
      {
        var x := -radius;
        while x <= radius
          invariant -radius <= x <= radius + 1
          invariant Painted(old(pixels[..]), pixels[..], Before(shape, centerY + y, centerX + x), color)
        {
          ghost var now := pixels[..];
          InDiscIs(x, y, radius);
          if x * x + y * y <= squared {
            PutPixel(centerX + x, centerY + y, color);
          }
          ScanPixel(old(pixels[..]), now, pixels[..], shape, centerY + y, centerX + x, color);
          x := x + 1;
        }
        ScanRow(old(pixels[..]), pixels[..], shape, centerY + y, centerX + x, centerX - radius, color);
        y := y + 1;
      }
      ScanEnds(old(pixels[..]), pixels[..], shape, centerY + y, centerX - radius, color);
    }

    /** The square pen at one point. */
    method Stamp(x0: int, y0: int, radius: int, color: nat)
      requires pixels.Length == 105_000
      modifies pixels
      ensures Painted(old(pixels[..]), pixels[..], Box(x0 - radius, y0 - radius, x0 + radius, y0 + radius), color)
    {
      hide Painted;
      ghost var shape := Box(x0 - radius, y0 - radius, x0 + radius, y0 + radius);
      var y := -radius;
      ScanStarts(pixels[..], shape, y0 + y, x0 - radius, color);
      while y <= radius
        invariant Painted(old(pixels[..]), pixels[..], Before(shape, y0 + y, x0 - radius), color)
        invariant y <= radius ==> -radius <= y
        invariant y > radius && -radius <= radius ==> y == radius + 1
      {
        var x := -radius;
        while x <= radius
          invariant -radius <= x <= radius + 1
          invariant Painted(old(pixels[..]), pixels[..], Before(shape, y0 + y, x0 + x), color)
        {
          ghost var now := pixels[..];
          PutPixel(x0 + x, y0 + y, color);
          ScanPixel(old(pixels[..]), now, pixels[..], shape, y0 + y, x0 + x, color);
          x := x + 1;
        }
        ScanRow(old(pixels[..]), pixels[..], shape, y0 + y, x0 + x, x0 - radius, color);
        y := y + 1;
      }
      ScanEnds(old(pixels[..]), pixels[..], shape, y0 + y, x0 - radius, color);
    }

    /** The error loop. It stops after exactly `Length` steps, has visited the closed-form points in
        order, and has set the pixels under the pen at each of them and no others. */
    method DrawLine(l: Line, thickness: int, color: nat) returns (ghost visited: seq<(int, int)>)
      requires pixels.Length == 105_000
      modifies pixels
      ensures |visited| == Length(l) + 1
      ensures forall k :: 0 <= k <= Length(l) ==> visited[k] == (X(l, k), Y(l, k))
      ensures visited[Length(l)] == (l.x1, l.y1)
      ensures Painted(old(pixels[..]), pixels[..], Path(l, Length(l) + 1, Half(thickness)), color)
    {
      hide Painted, Covers, X, Y, Across, Down, ErrorAt, Rounded;
      var deltaX := if l.x0 < l.x1 then l.x1 - l.x0 else l.x0 - l.x1;
      var stepX := if l.x0 < l.x1 then 1 else -1;
      var deltaY := -(if l.y0 < l.y1 then l.y1 - l.y0 else l.y0 - l.y1);
      var stepY := if l.y0 < l.y1 then 1 else -1;
      var error := deltaX + deltaY;
      var x, y := l.x0, l.y0;
      var radius := Half(thickness);
      ghost var k: nat := 0;
      visited := [];
      AtStart(l);
      NothingYet(pixels[..], l, radius, color);
      while true
        invariant k <= Length(l) && x == X(l, k) && y == Y(l, k) && error == ErrorAt(l, k)
        invariant |visited| == k && forall i :: 0 <= i < k ==> visited[i] == (X(l, i), Y(l, i))
        invariant Painted(old(pixels[..]), pixels[..], Path(l, k, radius), color)
        decreases Length(l) - k
      {
        ghost var now := pixels[..];
        Stamp(x, y, radius, color);
        OnePointMore(old(pixels[..]), now, pixels[..], l, k, radius, color);
        visited := visited + [(x, y)];
        AtEndIff(l, k);
        if x == l.x1 && y == l.y1 {
          break;
        }
        var doubled := error * 2;
        Advance(l, k);
        Moves(l, k);
        if doubled >= deltaY {
          error := error + deltaY;
          x := x + stepX;
        }
        if doubled <= deltaX {
          error := error + deltaX;
          y := y + stepY;
        }
        k := k + 1;
      }
    }

    method DrawEllipse(left0: int, top0: int, right0: int, bottom0: int, color: nat)
      requires pixels.Length == 105_000
      modifies pixels
      ensures Painted(old(pixels[..]), pixels[..], Ellipse(left0, top0, right0, bottom0), color)
    {
      hide Painted, Covers, Length;
      var left, top, right, bottom := left0, top0, right0, bottom0;
      if left > right {
        left, right := right, left;
      }
      if top > bottom {
        top, bottom := bottom, top;
      }
      if (right - left) / 2 < 2 || (bottom - top) / 2 < 2 {
        ghost var visited := DrawLine(Line(left, top, right, bottom), 2, color);
        return;
      }
      DrawRing(left, top, right, bottom, color);
    }

    /** The loops of `draw_ellipse` over a box wide enough for a ring. */
    method DrawRing(left: int, top: int, right: int, bottom: int, color: nat)
      requires pixels.Length == 105_000 && left <= right && top <= bottom
      modifies pixels
      ensures Painted(old(pixels[..]), pixels[..], Ring(left, top, right, bottom), color)
    {
      hide Painted, NearEllipse, Covers, Form, Target, Tolerance;
      var radiusX, radiusY := (right - left) / 2, (bottom - top) / 2;
      var centerX, centerY := left + radiusX, top + radiusY;
      var target, tolerance := Target(radiusX, radiusY), Tolerance(radiusX, radiusY);
      ghost var shape := Ring(left, top, right, bottom);
      var y := top;
      RingIsBoxed(left, top, right, bottom);
      ScanStarts(pixels[..], shape, top, left, color);
      while y <= bottom
        invariant top <= y <= bottom + 1
        invariant Painted(old(pixels[..]), pixels[..], Before(shape, y, left), color)
      {
        var x := left;
        while x <= right
          invariant left <= x <= right + 1
          invariant Painted(old(pixels[..]), pixels[..], Before(shape, y, x), color)
        {
          var distance := Form(x - centerX, y - centerY, radiusX, radiusY);
          var difference := if distance > target then distance - target else target - distance;
          ghost var now := pixels[..];
          RingCovers(left, top, right, bottom, x, y);
          if difference <= tolerance {
            PutPixel(x, y, color);
          }
          ScanPixel(old(pixels[..]), now, pixels[..], shape, y, x, color);
          x := x + 1;
        }
        ScanRow(old(pixels[..]), pixels[..], shape, y, x, left, color);
        y := y + 1;
      }
      ScanEnds(old(pixels[..]), pixels[..], shape, y, left, color);
    }
  }

  function Min(a: int, b: int): (r: int) {
    if a < b then a else b
  }

  function Max(a: int, b: int): (r: int) {
    if a > b then a else b
  }

  /** What `draw_ellipse` draws: the ring, or a diagonal when the box is too thin for one. */
  function Ellipse(x0: int, y0: int, x1: int, y1: int): (s: Shape) {
    var left, right, top, bottom := Min(x0, x1), Max(x0, x1), Min(y0, y1), Max(y0, y1);
    if (right - left) / 2 < 2 || (bottom - top) / 2 < 2 then
      var l := Line(left, top, right, bottom);
      Path(l, Length(l) + 1, 1)
    else Ring(left, top, right, bottom)
  }

  lemma InDiscIs(u: int, v: int, r: int)
    ensures InDisc(u, v, r) <==> u * u + v * v <= r * r
  {
  }

  lemma RingIsBoxed(left: int, top: int, right: int, bottom: int)
    ensures forall x, y :: Covers(Ring(left, top, right, bottom), x, y) ==> Inside(x, y, left, top, right, bottom)
  {
  }

  lemma RingCovers(left: int, top: int, right: int, bottom: int, x: int, y: int)
    requires left <= right && top <= bottom && Inside(x, y, left, top, right, bottom)
    ensures
      var a, b := (right - left) / 2, (bottom - top) / 2;
      Covers(Ring(left, top, right, bottom), x, y) <==>
        Abs(Form(x - (left + a), y - (top + b), a, b) - Target(a, b)) <= Tolerance(a, b)
  {
    hide Form, Target, Tolerance;
  }

  lemma NothingYet(s: seq<nat>, l: Line, radius: int, color: nat)
    requires |s| == 105_000
    ensures Painted(s, s, Path(l, 0, radius), color)
  {
  }

  lemma OnePointMore(
    before: seq<nat>, now: seq<nat>, after: seq<nat>, l: Line, k: nat, radius: int, color: nat)
    requires Painted(before, now, Path(l, k, radius), color)
    requires Painted(now, after, Box(X(l, k) - radius, Y(l, k) - radius, X(l, k) + radius, Y(l, k) + radius), color)
    ensures Painted(before, after, Path(l, k + 1, radius), color)
  {
    hide Painted, X, Y;
    var pen := Box(X(l, k) - radius, Y(l, k) - radius, X(l, k) + radius, Y(l, k) + radius);
    forall x, y | OnCanvas(x, y)
      ensures Covers(Path(l, k + 1, radius), x, y) <==> Covers(Either(Path(l, k, radius), pen), x, y)
    {
      assert Covers(pen, x, y) <==> OnPen(l, k, radius, x, y);
    }
    PaintedTwice(before, now, after, Path(l, k, radius), pen, Path(l, k + 1, radius), color);
  }

  /** The coordinates move exactly when the axis counts do. */
  lemma Moves(l: Line, k: nat)
    ensures X(l, k + 1) - X(l, k) ==
      if l.x0 < l.x1 then Across(l, k + 1) - Across(l, k) else Across(l, k) - Across(l, k + 1)
    ensures Y(l, k + 1) - Y(l, k) == if l.y0 < l.y1 then Down(l, k + 1) - Down(l, k) else Down(l, k) - Down(l, k + 1)
  {
  }

  /** The far edges are computed in 32-bit arithmetic. */
  lemma FilledIs(x: nat, y: nat, width: nat, height: nat, u: int, v: int)
    ensures Covers(Filled(x, y, width, height), u, v) <==>
      x <= u < (x + width) % 0x1_0000_0000 && y <= v < (y + height) % 0x1_0000_0000
  {
  }
}
