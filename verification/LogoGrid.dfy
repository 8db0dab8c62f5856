/** The pixel grid of the logo: coordinates, 4-neighbours and connected components. */
module LogoGrid {
  import opened Bytes

  function X(i: nat, w: nat): (x: nat)
    requires 0 < w
    ensures x < w
  {
    i % w
  }

  function Y(i: nat, w: nat): (y: nat)
    requires 0 < w
  {
    i / w
  }

  /** Index of the first pixel of row `y`. */
  function RowStart(y: nat, w: nat): (i: nat) {
    Product(y, w);
    y * w
  }

  lemma Product(a: nat, b: nat)
    ensures 0 <= a * b
  {
  }

  lemma NextRow(y: nat, w: nat)
    ensures RowStart(y + 1, w) == RowStart(y, w) + w
  {
    assert (y + 1) * w == y * w + w;
  }

  lemma Coordinates(i: nat, w: nat)
    requires 0 < w
    ensures i == RowStart(Y(i, w), w) + X(i, w)
  {
  }

  lemma CoordinatesAre(i: nat, w: nat, x: nat, y: nat)
    requires 0 < w && x < w && i == RowStart(y, w) + x
    ensures X(i, w) == x && Y(i, w) == y
  {
    var q := Y(i, w);
    Coordinates(i, w);
    if q < y {
      Multiples(q, y, w);
    } else if y < q {
      Multiples(y, q, w);
    }
  }

  lemma {:induction false} Multiples(a: nat, b: nat, w: nat)
    requires a < b
    ensures a * w + w <= b * w
    decreases b - a
  {
    assert b * w == (b - 1) * w + w;
    if a + 1 < b {
      Multiples(a, b - 1, w);
    }
  }

  lemma RowIsBelow(i: nat, w: nat, h: nat)
    requires 0 < w
    ensures i < w * h <==> Y(i, w) < h
  {
    var y := Y(i, w);
    Coordinates(i, w);
    assert w * h == h * w;
    if y < h {
      Multiples(y, h, w);
    } else if h < y {
      Multiples(h, y, w);
    }
  }

  /** The indices pushed for a pixel, in the order they are tried. */
  function Neighbours(i: nat, w: nat, h: nat): (r: seq<int>)
    requires 0 < w
  {
    (if X(i, w) != 0 then [i - 1] else []) + (if X(i, w) + 1 < w then [i + 1] else [])
    + (if Y(i, w) != 0 then [i - w] else []) + (if Y(i, w) + 1 < h then [i + w] else [])
  }

  function Apart(a: int, b: int): (d: nat) {
    if a < b then b - a else a - b
  }

  /** Pixels that share a side. */
  predicate Adjacent(p: nat, q: nat, w: nat, h: nat) {
    0 < w && p < w * h && q < w * h && Apart(X(p, w), X(q, w)) + Apart(Y(p, w), Y(q, w)) == 1
  }

  lemma NeighboursAreAdjacent(p: nat, q: int, w: nat, h: nat)
    requires 0 < w && p < w * h
    ensures q in Neighbours(p, w, h) <==> 0 <= q && Adjacent(p, q, w, h)
  {
    hide Adjacent, Neighbours;
    if q in Neighbours(p, w, h) {
      NeighbourIsSide(p, q, w, h);
    }
    if 0 <= q && Adjacent(p, q, w, h) {
      SideIsNeighbour(p, q, w, h);
    }
  }

  lemma NeighbourIsSide(p: nat, q: int, w: nat, h: nat)
    requires 0 < w && p < w * h && q in Neighbours(p, w, h)
    ensures 0 <= q && Adjacent(p, q, w, h)
  {
    hide X, Y, RowStart;
    var x, y := X(p, w), Y(p, w);
    Coordinates(p, w);
    RowIsBelow(p, w, h);
    if q == p - 1 && x != 0 {
      CoordinatesAre(q, w, x - 1, y);
    } else if q == p + 1 && x + 1 < w {
      CoordinatesAre(q, w, x + 1, y);
      RowIsBelow(q, w, h);
    } else if q == p - w && y != 0 {
      NextRow(y - 1, w);
      CoordinatesAre(q, w, x, y - 1);
    } else {
      NextRow(y, w);
      CoordinatesAre(q, w, x, y + 1);
      RowIsBelow(q, w, h);
    }
  }

  lemma SideIsNeighbour(p: nat, q: nat, w: nat, h: nat)
    requires Adjacent(p, q, w, h)
    ensures q in Neighbours(p, w, h)
  {
    hide X, Y, RowStart;
    var x, y, u, v := X(p, w), Y(p, w), X(q, w), Y(q, w);
    Coordinates(p, w);
    Coordinates(q, w);
    RowIsBelow(q, w, h);
    NextRow(y, w);
    NextRow(v, w);
    if v == y + 1 {
      assert q == p + w;
    } else if y == v + 1 {
      assert q == p - w;
    } else if u == x + 1 {
      assert q == p + 1;
    } else {
      assert q == p - 1;
    }
  }

  // ---------------------------------------------------------------------------------------------
  // Components

  ghost predicate StepAt(vis: seq<bool>, w: nat, h: nat, path: seq<nat>, k: nat) {
    k + 1 < |path| && path[k + 1] < |vis| && vis[path[k + 1]] && Adjacent(path[k], path[k + 1], w, h)
  }

  /** A walk over visible pixels from `a` to `b`, one side at a time. */
  ghost predicate IsPath(vis: seq<bool>, w: nat, h: nat, path: seq<nat>, a: nat, b: nat) {
    && path != [] && path[0] == a && path[|path| - 1] == b
    && a < |vis| && vis[a] && forall k :: 0 <= k < |path| - 1 ==> StepAt(vis, w, h, path, k)
  }

  ghost predicate Linked(vis: seq<bool>, w: nat, h: nat, a: nat, b: nat) {
    exists path :: IsPath(vis, w, h, path, a, b)
  }

  /** The 4-connected component of visible pixel `a`. */
  ghost function Component(vis: seq<bool>, w: nat, h: nat, a: nat): (c: set<nat>) {
    set b: nat | b < |vis| && Linked(vis, w, h, a, b)
  }

  lemma LinkedSelf(vis: seq<bool>, w: nat, h: nat, a: nat)
    requires a < |vis| && vis[a]
    ensures Linked(vis, w, h, a, a)
  {
    assert IsPath(vis, w, h, [a], a, a);
  }

  lemma LinkedNext(vis: seq<bool>, w: nat, h: nat, a: nat, p: nat, q: nat)
    requires Linked(vis, w, h, a, p) && Adjacent(p, q, w, h) && q < |vis| && vis[q]
    ensures Linked(vis, w, h, a, q)
  {
    var path :| IsPath(vis, w, h, path, a, p);
    var longer := path + [q];
    forall k | 0 <= k < |longer| - 1 ensures StepAt(vis, w, h, longer, k) {
      if k < |path| - 1 {
        assert StepAt(vis, w, h, path, k);
      }
    }
    assert IsPath(vis, w, h, longer, a, q);
  }

  /** `s` is not left by any step to a visible pixel. */
  ghost predicate Closed(vis: seq<bool>, w: nat, h: nat, s: set<nat>) {
    forall p: nat, q: nat :: p in s && q < |vis| && vis[q] && Adjacent(p, q, w, h) ==> q in s
  }

  lemma {:induction false} PathStays(vis: seq<bool>, w: nat, h: nat, s: set<nat>, path: seq<nat>, a: nat, b: nat)
    requires Closed(vis, w, h, s) && a in s && IsPath(vis, w, h, path, a, b)
    ensures b in s
    decreases |path|
  {
    if 1 < |path| {
      var front := path[..|path| - 1];
      var c := front[|front| - 1];
      forall k | 0 <= k < |front| - 1 ensures StepAt(vis, w, h, front, k) {
        assert StepAt(vis, w, h, path, k);
      }
      PathStays(vis, w, h, s, front, a, c);
      assert StepAt(vis, w, h, path, |path| - 2);
    }
  }

  lemma LinkedStays(vis: seq<bool>, w: nat, h: nat, s: set<nat>, a: nat, b: nat)
    requires Closed(vis, w, h, s) && a in s && Linked(vis, w, h, a, b)
    ensures b in s
  {
    var path :| IsPath(vis, w, h, path, a, b);
    PathStays(vis, w, h, s, path, a, b);
  }

  lemma LinkedIsVisible(vis: seq<bool>, w: nat, h: nat, a: nat, b: nat)
    requires Linked(vis, w, h, a, b)
    ensures b < |vis| && vis[b]
  {
    var path :| IsPath(vis, w, h, path, a, b);
    if 1 < |path| {
      assert StepAt(vis, w, h, path, |path| - 2);
    }
  }

  /** A closed set of linked pixels around `a` is its component. */
  lemma ClosedIsComponent(vis: seq<bool>, w: nat, h: nat, s: set<nat>, a: nat)
    requires Closed(vis, w, h, s) && a in s && forall i :: i in s ==> Linked(vis, w, h, a, i)
    ensures s == Component(vis, w, h, a)
  {
    hide Linked, Closed;
    forall i: nat ensures i in s <==> i in Component(vis, w, h, a) {
      if i in s {
        LinkedIsVisible(vis, w, h, a, i);
      }
      if i in Component(vis, w, h, a) {
        LinkedStays(vis, w, h, s, a, i);
      }
    }
  }

  lemma ComponentIsClosed(vis: seq<bool>, w: nat, h: nat, a: nat)
    ensures Closed(vis, w, h, Component(vis, w, h, a))
  {
    hide Linked;
    forall p: nat, q: nat | p in Component(vis, w, h, a) && q < |vis| && vis[q] && Adjacent(p, q, w, h)
      ensures q in Component(vis, w, h, a)
    {
      LinkedNext(vis, w, h, a, p, q);
    }
  }

  /** Being linked goes both ways. */
  lemma LinkedBack(vis: seq<bool>, w: nat, h: nat, a: nat, b: nat)
    requires Linked(vis, w, h, a, b)
    ensures Linked(vis, w, h, b, a)
  {
    hide Linked;
    LinkedIsVisible(vis, w, h, a, b);
    LinkedHasPath(vis, w, h, a, b);
    var path :| IsPath(vis, w, h, path, a, b);
    WalkBack(vis, w, h, path, a, b, |path| - 1);
  }

  lemma LinkedHasPath(vis: seq<bool>, w: nat, h: nat, a: nat, b: nat)
    requires Linked(vis, w, h, a, b)
    ensures exists path :: IsPath(vis, w, h, path, a, b)
  {
  }

  lemma {:induction false} WalkBack(vis: seq<bool>, w: nat, h: nat, path: seq<nat>, a: nat, b: nat, k: nat)
    requires IsPath(vis, w, h, path, a, b) && k < |path| && b < |vis| && vis[b]
    ensures Linked(vis, w, h, b, path[|path| - 1 - k])
  {
    hide Linked;
    if k == 0 {
      LinkedSelf(vis, w, h, b);
    } else {
      WalkBack(vis, w, h, path, a, b, k - 1);
      var m := |path| - 1 - k;
      assert StepAt(vis, w, h, path, m);
      if 0 < m {
        assert StepAt(vis, w, h, path, m - 1);
      }
      LinkedNext(vis, w, h, b, path[m + 1], path[m]);
    }
  }

  /** Pixels of one component have the same component. */
  lemma SameComponent(vis: seq<bool>, w: nat, h: nat, a: nat, b: nat)
    requires b in Component(vis, w, h, a)
    ensures Component(vis, w, h, b) == Component(vis, w, h, a)
  {
    hide Linked;
    forall i: nat ensures i in Component(vis, w, h, b) <==> i in Component(vis, w, h, a) {
      ComponentIsClosed(vis, w, h, a);
      ComponentIsClosed(vis, w, h, b);
      LinkedBack(vis, w, h, a, b);
      LinkedIsVisible(vis, w, h, b, a);
      if Linked(vis, w, h, b, i) {
        LinkedStays(vis, w, h, Component(vis, w, h, a), b, i);
      }
      if Linked(vis, w, h, a, i) {
        LinkedStays(vis, w, h, Component(vis, w, h, b), a, i);
      }
    }
  }

  /** Four neighbours: one row and neighbouring columns, or one column and neighbouring rows. */
  lemma AdjacentIff(p: nat, q: nat, w: nat, h: nat)
    requires 0 < w && p < w * h && q < w * h
    ensures Adjacent(p, q, w, h) <==>
      || (p / w == q / w && (p % w == q % w + 1 || q % w == p % w + 1))
      || (p % w == q % w && (p / w == q / w + 1 || q / w == p / w + 1))
  {
  }
}
