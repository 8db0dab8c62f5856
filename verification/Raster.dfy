/** The points an integer line visits, in closed form, and the shapes drawn on the canvas. */
module Raster {

  datatype Line = Line(x0: int, y0: int, x1: int, y1: int)

  function Abs(n: int): (r: nat) {
    if n < 0 then -n else n
  }

  function DeltaX(l: Line): (d: nat) {
    Abs(l.x1 - l.x0)
  }

  function DeltaY(l: Line): (d: nat) {
    Abs(l.y1 - l.y0)
  }

  /** Steps from the first endpoint to the second. */
  function Length(l: Line): (n: nat) {
    if DeltaX(l) < DeltaY(l) then DeltaY(l) else DeltaX(l)
  }

  /** `k * minor / major` rounded to the nearest integer, halves upwards. */
  function Rounded(k: nat, minor: nat, major: nat): (j: nat) {
    if major == 0 then 0 else
    var numerator := 2 * (k * minor) + major;
    Nonnegative(k, minor);
    numerator / (2 * major)
  }

  lemma Nonnegative(a: nat, b: nat)
    ensures 0 <= a * b
  {
  }

  /** How far along each axis the `k`-th point lies. */
  function Across(l: Line, k: nat): (i: nat) {
    if DeltaY(l) <= DeltaX(l) then k else Rounded(k, DeltaX(l), DeltaY(l))
  }

  function Down(l: Line, k: nat): (j: nat) {
    if DeltaY(l) <= DeltaX(l) then Rounded(k, DeltaY(l), DeltaX(l)) else k
  }

  function X(l: Line, k: nat): (x: int) {
    if l.x0 < l.x1 then l.x0 + Across(l, k) else l.x0 - Across(l, k)
  }

  function Y(l: Line, k: nat): (y: int) {
    if l.y0 < l.y1 then l.y0 + Down(l, k) else l.y0 - Down(l, k)
  }

  // ---------------------------------------------------------------------------------------------
  // Rounding

  /** `j` is within half a unit of `k * minor / major`, given `j * major` and `k * minor`. */
  predicate Nearest(done: int, ideal: int, major: nat) {
    -(major as int) <= 2 * (ideal - done) < major
  }

  lemma RoundedIsNearest(k: nat, minor: nat, major: nat)
    requires 0 < major
    ensures Nearest(Rounded(k, minor, major) * major, k * minor, major)
  {
    var j, n := Rounded(k, minor, major), 2 * (k * minor) + major;
    assert n == (2 * major) * j + n % (2 * major);
    assert (2 * major) * j == 2 * (j * major);
  }

  lemma NearestIsRounded(k: nat, minor: nat, major: nat, j: nat)
    requires 0 < major && Nearest(j * major, k * minor, major)
    ensures j == Rounded(k, minor, major)
  {
    var r := Rounded(k, minor, major);
    RoundedIsNearest(k, minor, major);
    if r < j {
      Gap(r, j, major);
    } else if j < r {
      Gap(j, r, major);
    }
  }

  lemma {:induction false} Gap(a: nat, b: nat, major: nat)
    requires a < b
    ensures a * major + major <= b * major
    decreases b - a
  {
    assert b * major == (b - 1) * major + major;
    if a + 1 < b {
      Gap(a, b - 1, major);
    }
  }

  /** At the last step the minor axis has gone all the way. */
  lemma RoundedEnd(minor: nat, major: nat)
    requires minor <= major
    ensures Rounded(major, minor, major) == minor && Rounded(0, minor, major) == 0
  {
    if 0 < major {
      assert minor * major == major * minor;
      NearestIsRounded(major, minor, major, minor);
      NearestIsRounded(0, minor, major, 0);
    }
  }

  lemma RoundedNext(k: nat, minor: nat, major: nat)
    requires minor <= major && 0 < major
    ensures
      var j := Rounded(k, minor, major);
      var ahead := 2 * (k * minor - j * major) + 2 * minor >= major;
      Rounded(k + 1, minor, major) == if ahead then j + 1 else j
  {
    var j := Rounded(k, minor, major);
    RoundedIsNearest(k, minor, major);
    assert (k + 1) * minor == k * minor + minor && (j + 1) * major == j * major + major;
    if 2 * (k * minor - j * major) + 2 * minor >= major {
      NearestIsRounded(k + 1, minor, major, j + 1);
    } else {
      NearestIsRounded(k + 1, minor, major, j);
    }
  }

  // ---------------------------------------------------------------------------------------------
  // The error term of the loop

  /** What the loop's `error` is at the `k`-th point. */
  ghost function ErrorAt(l: Line, k: nat): (e: int) {
    DeltaX(l) - DeltaY(l) - (Across(l, k) * DeltaY(l) - Down(l, k) * DeltaX(l))
  }

  /** The two tests of the loop take exactly the next point. */
  lemma Advance(l: Line, k: nat)
    requires k < Length(l)
    ensures Across(l, k + 1) == Across(l, k) + if 2 * ErrorAt(l, k) >= -(DeltaY(l) as int) then 1 else 0
    ensures Down(l, k + 1) == Down(l, k) + if 2 * ErrorAt(l, k) <= DeltaX(l) then 1 else 0
    ensures ErrorAt(l, k + 1) ==
      ErrorAt(l, k) - (if 2 * ErrorAt(l, k) >= -(DeltaY(l) as int) then DeltaY(l) else 0)
      + (if 2 * ErrorAt(l, k) <= DeltaX(l) then DeltaX(l) else 0)
  {
    hide Rounded;
    var dx, dy, i, j := DeltaX(l), DeltaY(l), Across(l, k), Down(l, k);
    if dy <= dx {
      RoundedIsNearest(k, dy, dx);
      RoundedNext(k, dy, dx);
    } else {
      RoundedIsNearest(k, dx, dy);
      RoundedNext(k, dx, dy);
    }
    OneMore(i, Across(l, k + 1), dy);
    OneMore(j, Down(l, k + 1), dx);
  }

  lemma OneMore(i: nat, next: nat, d: nat)
    ensures next == i + 1 ==> next * d == i * d + d
  {
  }

  lemma AtStart(l: Line)
    ensures X(l, 0) == l.x0 && Y(l, 0) == l.y0 && ErrorAt(l, 0) == DeltaX(l) - DeltaY(l)
  {
    hide Rounded;
    RoundedEnd(if DeltaX(l) < DeltaY(l) then DeltaX(l) else DeltaY(l), Length(l));
  }

  /** The second endpoint is reached at the last step and not before. */
  lemma AtEndIff(l: Line, k: nat)
    requires k <= Length(l)
    ensures X(l, k) == l.x1 && Y(l, k) == l.y1 <==> k == Length(l)
  {
    hide Rounded;
    RoundedEnd(if DeltaX(l) < DeltaY(l) then DeltaX(l) else DeltaY(l), Length(l));
  }

  /** Neither coordinate leaves the box between the endpoints. */
  lemma {:induction false} NoOvershoot(l: Line, k: nat)
    requires k <= Length(l)
    ensures Across(l, k) <= DeltaX(l) && Down(l, k) <= DeltaY(l)
    decreases Length(l) - k
  {
    hide Rounded;
    if k == Length(l) {
      RoundedEnd(if DeltaX(l) < DeltaY(l) then DeltaX(l) else DeltaY(l), Length(l));
    } else {
      NoOvershoot(l, k + 1);
      Advance(l, k);
    }
  }

  /** Every visited point is within half a pixel of the ideal line on the minor axis, and each step
      moves one pixel on the major axis and at most one on the minor. */
  lemma HalfPixel(l: Line, k: nat)
    requires k <= Length(l)
    ensures
      var dx, dy, i, j := DeltaX(l), DeltaY(l), Across(l, k), Down(l, k);
      if dy <= dx then i == k && 2 * Abs(j * dx - k * dy) <= dx else j == k && 2 * Abs(i * dy - k * dx) <= dy
    ensures k < Length(l) ==>
      && 0 <= Across(l, k + 1) - Across(l, k) <= 1 && 0 <= Down(l, k + 1) - Down(l, k) <= 1
  {
    hide Rounded;
    if k < Length(l) {
      Advance(l, k);
    }
    if DeltaY(l) <= DeltaX(l) {
      if 0 < DeltaX(l) {
        RoundedIsNearest(k, DeltaY(l), DeltaX(l));
      }
    } else {
      RoundedIsNearest(k, DeltaX(l), DeltaY(l));
    }
  }

  /** `error` never needs more than three times the longer side, doubled. */
  lemma ErrorIsBounded(l: Line, k: nat)
    requires k <= Length(l)
    ensures 2 * Abs(ErrorAt(l, k)) <= 3 * Length(l)
  {
    hide Rounded;
    HalfPixel(l, k);
  }

  // ---------------------------------------------------------------------------------------------
  // Shapes

  datatype Shape =
    | Box(left: int, top: int, right: int, bottom: int)            // edges included
    | Disc(x: int, y: int, radius: int)
    | Path(line: Line, points: nat, radius: int)                   // a square pen over the first points
    | Ring(left: int, top: int, right: int, bottom: int)           // the ellipse inscribed in a box
    | Either(a: Shape, b: Shape)
    | Before(shape: Shape, row: int, column: int)                  // the part a row-by-row scan has passed

  predicate Inside(x: int, y: int, left: int, top: int, right: int, bottom: int) {
    left <= x <= right && top <= y <= bottom
  }

  predicate OnPen(l: Line, k: nat, radius: int, x: int, y: int) {
    Inside(x, y, X(l, k) - radius, Y(l, k) - radius, X(l, k) + radius, Y(l, k) + radius)
  }

  function Target(a: nat, b: nat): (t: int) {
    a * a * b * b
  }

  function Tolerance(a: nat, b: nat): (t: int) {
    (a * a + b * b) * 2
  }

  /** The ellipse's form at an offset from the centre; `Target` on the ellipse itself. */
  function Form(u: int, v: int, a: nat, b: nat): (d: int) {
    u * u * b * b + v * v * a * a
  }

  /** The band of pixels drawn for the ellipse with half axes `a` and `b`. */
  predicate NearEllipse(u: int, v: int, a: nat, b: nat) {
    Abs(Form(u, v, a, b) - Target(a, b)) <= Tolerance(a, b)
  }

  predicate Covers(s: Shape, x: int, y: int) {
    match s
    case Box(l, t, r, b) => Inside(x, y, l, t, r, b)
    case Disc(cx, cy, r) => Inside(x, y, cx - r, cy - r, cx + r, cy + r) && InDisc(x - cx, y - cy, r)
    case Path(line, points, r) => exists k :: 0 <= k < points && OnPen(line, k, r, x, y)
    case Ring(l, t, r, b) =>
      l <= r && t <= b && Inside(x, y, l, t, r, b)
      && NearEllipse(x - (l + (r - l) / 2), y - (t + (b - t) / 2), (r - l) / 2, (b - t) / 2)
    case Either(a, b) => Covers(a, x, y) || Covers(b, x, y)
    case Before(shape, row, column) => Covers(shape, x, y) && (y < row || (y == row && x < column))
  }

  predicate InDisc(u: int, v: int, r: int) {
    u * u + v * v <= r * r
  }

  /** The loops over the disc's box lose nothing: exactly the points within the radius are covered. */
  lemma DiscIsRound(cx: int, cy: int, r: nat, x: int, y: int)
    ensures Covers(Disc(cx, cy, r), x, y) <==> InDisc(x - cx, y - cy, r)
  {
    var u, v := x - cx, y - cy;
    if InDisc(u, v, r) {
      Square(u, r);
      Square(v, r);
      assert 0 <= u * u && 0 <= v * v;
    }
  }

  lemma Square(u: int, r: nat)
    ensures (u < -(r as int) || r < u) ==> r * r < u * u
  {
    if r < u {
      assert r * r <= r * u && r * u < u * u;
    } else if u < -(r as int) {
      assert r * r <= r * (-u) && r * (-u) < (-u) * (-u) && (-u) * (-u) == u * u;
    }
  }
}
