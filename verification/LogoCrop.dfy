/** The flood fill that finds the primary mark of the logo, and the crop around it. */
module LogoCrop {
  import opened Bytes
  import opened LogoGrid

  datatype Bounds = Bounds(minX: nat, minY: nat, maxX: nat, maxY: nat)

  /** Every pixel of `s` lies within the bounds. */
  ghost predicate Within(s: set<nat>, w: nat, b: Bounds) {
    0 < w && forall i :: i in s ==> b.minX <= X(i, w) <= b.maxX && b.minY <= Y(i, w) <= b.maxY
  }

  ghost predicate Touches(s: set<nat>, w: nat, b: Bounds) {
    && 0 < w && (exists i :: i in s && X(i, w) == b.minX) && (exists i :: i in s && X(i, w) == b.maxX)
    && (exists i :: i in s && Y(i, w) == b.minY) && (exists i :: i in s && Y(i, w) == b.maxY)
  }

  /** The exact bounding box. */
  ghost predicate Boxes(s: set<nat>, w: nat, b: Bounds) {
    Within(s, w, b) && Touches(s, w, b)
  }

  function Min(a: nat, b: nat): (r: nat) {
    if b < a then b else a
  }

  function Max(a: nat, b: nat): (r: nat) {
    if b > a then b else a
  }

  function Widen(b: Bounds, x: nat, y: nat): (r: Bounds) {
    Bounds(Min(b.minX, x), Min(b.minY, y), Max(b.maxX, x), Max(b.maxY, y))
  }

  lemma WidenKeeps(done: set<nat>, filled: set<nat>, w: nat, b: Bounds, i: nat)
    requires Within(done, w, b) && Touches(filled, w, b) && i in filled
    ensures
      var wider := Widen(b, X(i, w), Y(i, w));
      Within(done + {i}, w, wider) && Touches(filled, w, wider)
  {
  }

  lemma TouchesMore(s: set<nat>, t: set<nat>, w: nat, b: Bounds)
    requires Touches(s, w, b) && s <= t
    ensures Touches(t, w, b)
  {
  }

  /** What is left to visit: visible pixels, in whole components. */
  ghost predicate Whole(vis: seq<bool>, w: nat, h: nat, left: seq<bool>) {
    && |left| == |vis| == w * h
    && (forall i :: 0 <= i < |vis| && left[i] ==> vis[i])
    && forall p: nat, q: nat :: Adjacent(p, q, w, h) && vis[p] && vis[q] ==> left[p] == left[q]
  }

  /** Clear and push every occupied neighbour. */
  method Expand(occupied: array<bool>, stack: seq<nat>, neighbours: seq<int>) returns (grown: seq<nat>, ghost added: set<nat>)
    requires forall k :: 0 <= k < |neighbours| ==> 0 <= neighbours[k] < occupied.Length
    requires NoDuplicates(stack) && forall i :: i in stack ==> i < occupied.Length && !occupied[i]
    modifies occupied
    ensures NoDuplicates(grown) && Elements(grown) == Elements(stack) + added
    ensures forall i :: i in added <==> i in neighbours && old(occupied[..])[i]
    ensures forall i :: 0 <= i < occupied.Length ==> occupied[i] == (old(occupied[i]) && i !in added)
  {
    grown, added := stack, {};
    var k := 0;
    while k < |neighbours|
      invariant k <= |neighbours|
      invariant NoDuplicates(grown) && Elements(grown) == Elements(stack) + added
      invariant forall i :: i in grown ==> i < occupied.Length && !occupied[i]
      invariant forall i :: i in added <==> i in neighbours[..k] && old(occupied[..])[i]
      invariant forall i :: 0 <= i < occupied.Length ==> occupied[i] == (old(occupied[i]) && i !in added)
    {
      var neighbour := neighbours[k];
      assert neighbours[..k + 1] == neighbours[..k] + [neighbour];
      if occupied[neighbour] {
        occupied[neighbour] := false;
        assert neighbour !in grown;
        PushElements(grown, neighbour);
        grown, added := grown + [neighbour], added + {neighbour};
      }
      k := k + 1;
    }
    assert neighbours[..k] == neighbours;
  }

  lemma PushElements(s: seq<nat>, x: nat)
    requires NoDuplicates(s) && x !in s
    ensures NoDuplicates(s + [x]) && Elements(s + [x]) == Elements(s) + {x}
  {
  }

  lemma PopElements(s: seq<nat>)
    requires NoDuplicates(s) && s != []
    ensures
      var top, rest := s[|s| - 1], s[..|s| - 1];
      NoDuplicates(rest) && top !in rest && Elements(s) == Elements(rest) + {top} && top in s
  {
    var top, rest := s[|s| - 1], s[..|s| - 1];
    assert s == rest + [top];
    PushElements(rest, top);
  }

  /** How far the fill has come: `done` are processed, the stack waits, both together are the cleared
      pixels, all linked to the seed, and no processed pixel has an occupied neighbour. */
  ghost predicate Filling(
    vis: seq<bool>, w: nat, h: nat, seed: nat, start: seq<bool>, now: seq<bool>, stack: seq<nat>, done: set<nat>)
  {
    && Whole(vis, w, h, start) && |now| == |start|
    && NoDuplicates(stack) && (forall i :: i in stack ==> i !in done)
    && (forall i :: i in stack || i in done ==> i < |start| && start[i] && Linked(vis, w, h, seed, i))
    && (forall i :: 0 <= i < |start| ==> now[i] == (start[i] && i !in stack && i !in done))
    && (forall p: nat, q: nat :: p in done && Adjacent(p, q, w, h) ==> !now[q])
    && (seed in stack || seed in done)
  }

  /** One pixel processed. */
  lemma FillStep(
    vis: seq<bool>, w: nat, h: nat, seed: nat, start: seq<bool>, now: seq<bool>, stack: seq<nat>, done: set<nat>,
    i: nat, neighbours: seq<int>, after: seq<bool>, grown: seq<nat>, added: set<nat>)
    requires Filling(vis, w, h, seed, start, now, stack, done) && stack != [] && i == stack[|stack| - 1]
    requires forall q: nat :: q in neighbours <==> Adjacent(i, q, w, h)
    requires NoDuplicates(grown) && Elements(grown) == Elements(stack[..|stack| - 1]) + added
    requires |after| == |now| && forall q: nat :: q in added <==> q in neighbours && q < |now| && now[q]
    requires forall k :: 0 <= k < |after| ==> after[k] == (now[k] && k !in added)
    ensures Filling(vis, w, h, seed, start, after, grown, done + {i})
    ensures i !in done
  {
    hide Linked, X, Y, Apart;
    var rest := stack[..|stack| - 1];
    PopElements(stack);
    assert forall k :: k in grown <==> k in Elements(grown);
    assert forall k :: k in rest <==> k in Elements(rest);
    assert forall k :: k in stack <==> k in Elements(stack);
    forall k | k in added ensures start[k] && Linked(vis, w, h, seed, k) {
      assert i in stack && now[k] && Adjacent(i, k, w, h);
      LinkedNext(vis, w, h, seed, i, k);
    }
  }

  lemma FillStarts(vis: seq<bool>, w: nat, h: nat, seed: nat, start: seq<bool>, b: Bounds)
    requires Whole(vis, w, h, start) && seed < |start| && start[seed]
    ensures 0 < w && Filling(vis, w, h, seed, start, start[seed := false], [seed], {})
    ensures b == Bounds(X(seed, w), Y(seed, w), X(seed, w), Y(seed, w)) ==>
      Within({}, w, b) && Touches({} + Elements([seed]), w, b)
  {
    hide Linked, X, Y;
    assert w * h != 0;
    LinkedSelf(vis, w, h, seed);
    assert seed in Elements([seed]);
  }

  lemma FillFacts(
    vis: seq<bool>, w: nat, h: nat, seed: nat, start: seq<bool>, now: seq<bool>, stack: seq<nat>, done: set<nat>)
    requires Filling(vis, w, h, seed, start, now, stack, done)
    ensures NoDuplicates(stack) && forall i :: i in stack ==> i < |start| == |now| == w * h && !now[i] && i !in done
    ensures |done| <= |start|
  {
    hide Linked, Adjacent;
    assert done <= Interval(0, |start|);
    SubsetSize(done, Interval(0, |start|));
    IntervalSize(0, |start|);
  }

  lemma NeighboursFit(i: nat, w: nat, h: nat)
    requires 0 < w && i < w * h
    ensures forall k :: 0 <= k < |Neighbours(i, w, h)| ==> 0 <= Neighbours(i, w, h)[k] < w * h
    ensures forall q: nat :: q in Neighbours(i, w, h) <==> Adjacent(i, q, w, h)
  {
    hide Neighbours;
    forall q: int ensures q in Neighbours(i, w, h) <==> 0 <= q && Adjacent(i, q, w, h) {
      NeighboursAreAdjacent(i, q, w, h);
    }
    forall k | 0 <= k < |Neighbours(i, w, h)| ensures 0 <= Neighbours(i, w, h)[k] < w * h {
      assert Neighbours(i, w, h)[k] in Neighbours(i, w, h);
    }
  }

  /** With nothing left on the stack, exactly the component has been cleared. */
  lemma FillEnds(
    vis: seq<bool>, w: nat, h: nat, seed: nat, start: seq<bool>, now: seq<bool>, done: set<nat>)
    requires Filling(vis, w, h, seed, start, now, [], done)
    ensures done == Component(vis, w, h, seed) && Whole(vis, w, h, now)
    ensures forall i :: 0 <= i < |start| ==> now[i] == (start[i] && i !in done)
    ensures forall i :: i in done ==> i < |start| && start[i]
  {
    hide Linked, X, Y, Apart, Component;
    forall p: nat, q: nat | p in done && q < |vis| && vis[q] && Adjacent(p, q, w, h) ensures q in done {
      assert !now[q] && start[p] == start[q];
    }
    ClosedIsComponent(vis, w, h, done, seed);
    forall p: nat, q: nat | Adjacent(p, q, w, h) && vis[p] && vis[q] ensures now[p] == now[q] {
      assert start[p] == start[q];
      AdjacentBack(p, q, w, h);
      assert p in done <==> q in done;
    }
  }

  lemma AdjacentBack(p: nat, q: nat, w: nat, h: nat)
    ensures Adjacent(p, q, w, h) <==> Adjacent(q, p, w, h)
  {
  }

  /** Clear the component of `seed`, counting it and bounding it exactly. */
  method Flood(occupied: array<bool>, w: nat, h: nat, seed: nat, ghost vis: seq<bool>) returns (count: nat, b: Bounds)
    requires Whole(vis, w, h, occupied[..]) && seed < occupied.Length && occupied[seed]
    modifies occupied
    ensures Whole(vis, w, h, occupied[..])
    ensures forall i :: 0 <= i < occupied.Length ==> occupied[i] == (old(occupied[i]) && i !in Component(vis, w, h, seed))
    ensures forall i :: i in Component(vis, w, h, seed) ==> i < occupied.Length && old(occupied[..])[i]
    ensures count == |Component(vis, w, h, seed)| && Boxes(Component(vis, w, h, seed), w, b)
  {
    hide Filling, Whole, Linked, Adjacent, Neighbours, Within, Touches, X, Y, Component;
    ghost var start := occupied[..];
    FillStarts(vis, w, h, seed, start, Bounds(0, 0, 0, 0));
    occupied[seed] := false;
    var stack: seq<nat> := [seed];
    count := 0;
    b := Bounds(X(seed, w), Y(seed, w), X(seed, w), Y(seed, w));
    ghost var done: set<nat> := {};
    FillStarts(vis, w, h, seed, start, b);
    assert occupied[..] == start[seed := false];
    while stack != []
      invariant Filling(vis, w, h, seed, start, occupied[..], stack, done)
      invariant count == |done| && Within(done, w, b) && Touches(done + Elements(stack), w, b)
      decreases |start| - |done|
    {
      ghost var before, bounds := stack, b;
      var i;
      stack, i := Visit(occupied, w, h, stack, seed, vis, start, done);
      count := count + 1;
      b := Widen(b, X(i, w), Y(i, w));
      WidenKeeps(done, done + Elements(before), w, bounds, i);
      TouchesMore(done + Elements(before), done + {i} + Elements(stack), w, b);
      done := done + {i};
    }
    FillEnds(vis, w, h, seed, start, occupied[..], done);
    assert done + Elements(stack) == done;
  }

  /** Pop a pixel and push its occupied neighbours. */
  method Visit(
    occupied: array<bool>, w: nat, h: nat, stack: seq<nat>, ghost seed: nat, ghost vis: seq<bool>, ghost start: seq<bool>,
    ghost done: set<nat>) returns (grown: seq<nat>, i: nat)
    requires 0 < w && stack != [] && Filling(vis, w, h, seed, start, occupied[..], stack, done)
    modifies occupied
    ensures i == stack[|stack| - 1] && i in Elements(stack) && i !in done
    ensures Filling(vis, w, h, seed, start, occupied[..], grown, done + {i}) && |done| < |start|
    ensures Elements(stack) <= Elements(grown) + {i}
  {
    hide Filling, Whole, Linked, Adjacent, Neighbours, X, Y, Component;
    ghost var now, added := occupied[..], {};
    FillFacts(vis, w, h, seed, start, now, stack, done);
    PopElements(stack);
    i, grown := stack[|stack| - 1], stack[..|stack| - 1];
    NeighboursFit(i, w, h);
    assert forall j :: j in grown ==> j in stack && !now[j];
    grown, added := Expand(occupied, grown, Neighbours(i, w, h));
    FillStep(vis, w, h, seed, start, now, stack, done, i, Neighbours(i, w, h), occupied[..], grown, added);
    FillFacts(vis, w, h, seed, start, occupied[..], grown, done + {i});
  }

  // ---------------------------------------------------------------------------------------------
  // The primary mark

  /** Visible means alpha at or above the threshold. */
  ghost function Visible(pixels: seq<byte>, w: nat, h: nat, threshold: int): (vis: seq<bool>)
    requires 4 * (w * h) <= |pixels|
    ensures |vis| == w * h && forall i :: 0 <= i < w * h ==> vis[i] == (pixels[4 * i + 3] >= threshold)
  {
    seq(w * h, i requires 0 <= i < w * h => pixels[4 * i + 3] >= threshold)
  }

  ghost function VisibleSet(vis: seq<bool>): (s: set<nat>) {
    set i: nat | i < |vis| && vis[i]
  }

  /** `m` starts the first largest component in scan order, and `b` bounds it exactly. */
  ghost predicate IsPrimary(vis: seq<bool>, w: nat, h: nat, m: nat, b: Bounds) {
    && m < |vis| && vis[m] && Boxes(Component(vis, w, h, m), w, b)
    && (forall i: nat :: i < |vis| && vis[i] ==> |Component(vis, w, h, i)| <= |Component(vis, w, h, m)|)
    && (forall i: nat :: i < m && vis[i] ==> |Component(vis, w, h, i)| < |Component(vis, w, h, m)|)
  }

  datatype Candidate = Candidate(count: nat, bounds: Bounds)

  /** `largest` is the first largest among the components cleared so far. */
  ghost predicate Best(vis: seq<bool>, w: nat, h: nat, left: seq<bool>, largest: Option<Candidate>, m: nat) {
    && |left| == |vis|
    && (largest.None? ==> forall i :: 0 <= i < |vis| ==> left[i] == vis[i])
    && (largest.Some? ==>
          && m < |vis| && vis[m] && largest.value.count == |Component(vis, w, h, m)|
          && Boxes(Component(vis, w, h, m), w, largest.value.bounds)
          && (forall i: nat :: i < |vis| && vis[i] && !left[i] ==> |Component(vis, w, h, i)| <= largest.value.count)
          && (forall i: nat :: i < m && vis[i] ==> |Component(vis, w, h, i)| < largest.value.count))
  }

  /** The comparison after one fill. */
  lemma BestNext(
    vis: seq<bool>, w: nat, h: nat, left: seq<bool>, after: seq<bool>, largest: Option<Candidate>, m: nat,
    seed: nat, c: Candidate)
    requires Best(vis, w, h, left, largest, m) && seed < |vis| && vis[seed] && |after| == |left|
    requires forall i :: 0 <= i < seed ==> !left[i]
    requires forall i :: 0 <= i < |left| ==> after[i] == (left[i] && i !in Component(vis, w, h, seed))
    requires c.count == |Component(vis, w, h, seed)| && Boxes(Component(vis, w, h, seed), w, c.bounds)
    ensures
      if largest.None? || c.count > largest.value.count then Best(vis, w, h, after, Some(c), seed)
      else Best(vis, w, h, after, largest, m)
  {
    hide Component, Boxes;
    forall i | i in Component(vis, w, h, seed) ensures |Component(vis, w, h, i)| == c.count {
      SameComponent(vis, w, h, seed, i);
    }
  }

  lemma BestIsPrimary(vis: seq<bool>, w: nat, h: nat, left: seq<bool>, largest: Option<Candidate>, m: nat)
    requires Best(vis, w, h, left, largest, m) && forall i :: 0 <= i < |left| ==> !left[i]
    ensures largest.None? <==> forall i :: 0 <= i < |vis| ==> !vis[i]
    ensures largest.Some? ==> IsPrimary(vis, w, h, m, largest.value.bounds) && largest.value.count == |Component(vis, w, h, m)|
  {
    hide Component, Boxes;
  }

  /** Visible pixels that have been cleared. */
  ghost function Cleared(vis: seq<bool>, left: seq<bool>): (s: set<nat>)
    requires |left| == |vis|
  {
    set i: nat | i < |vis| && vis[i] && !left[i]
  }

  lemma ClearedNext(vis: seq<bool>, left: seq<bool>, after: seq<bool>, c: set<nat>)
    requires |left| == |after| == |vis| && forall i :: 0 <= i < |left| ==> after[i] == (left[i] && i !in c)
    requires forall i :: i in c ==> i < |left| && left[i] && vis[i]
    ensures |Cleared(vis, after)| == |Cleared(vis, left)| + |c|
  {
    assert Cleared(vis, after) == Cleared(vis, left) + c;
    assert Cleared(vis, left) !! c;
  }

  method Occupy(pixels: seq<byte>, w: nat, h: nat, threshold: int) returns (occupied: array<bool>)
    requires 4 * (w * h) <= |pixels|
    ensures fresh(occupied) && occupied[..] == Visible(pixels, w, h, threshold)
  {
    var n := w * h;
    occupied := new bool[n];
    var i := 0;
    while i < n
      invariant i <= n && forall k :: 0 <= k < i ==> occupied[k] == (pixels[4 * k + 3] >= threshold)
    {
      occupied[i] := pixels[4 * i + 3] >= threshold;
      i := i + 1;
    }
  }

  /** Visit every component once and keep the first largest; `total` sums what was counted. */
  method FindMark(pixels: seq<byte>, w: nat, h: nat, threshold: int)
    returns (largest: Option<Candidate>, ghost m: nat, ghost total: nat)
    requires 4 * (w * h) <= |pixels|
    ensures
      var vis := Visible(pixels, w, h, threshold);
      && (largest.None? <==> forall i :: 0 <= i < |vis| ==> !vis[i])
      && (largest.Some? ==>
            IsPrimary(vis, w, h, m, largest.value.bounds) && largest.value.count == |Component(vis, w, h, m)|)
      && total == |VisibleSet(vis)|
  {
    hide Whole, Component, Boxes, Best, Visible, IsPrimary;
    ghost var vis := Visible(pixels, w, h, threshold);
    var occupied := Occupy(pixels, w, h, threshold);
    largest, m, total := None, 0, 0;
    var seed := 0;
    MarkStarts(vis, w, h);
    while seed < w * h
      invariant seed <= w * h == occupied.Length
      invariant Whole(vis, w, h, occupied[..]) && Best(vis, w, h, occupied[..], largest, m)
      invariant forall i :: 0 <= i < seed ==> !occupied[i]
      invariant total == |Cleared(vis, occupied[..])|
    {
      if occupied[seed] {
        ghost var left := occupied[..];
        WholeIsVisible(vis, w, h, left);
        var count, bounds := Flood(occupied, w, h, seed, vis);
        SeedIsIn(vis, w, h, seed);
        var c := Candidate(count, bounds);
        BestNext(vis, w, h, left, occupied[..], largest, m, seed, c);
        ClearedNext(vis, left, occupied[..], Component(vis, w, h, seed));
        total := total + count;
        if largest.None? || c.count > largest.value.count {
          largest, m := Some(c), seed;
        }
      }
      seed := seed + 1;
    }
    BestIsPrimary(vis, w, h, occupied[..], largest, m);
    assert Cleared(vis, occupied[..]) == VisibleSet(vis);
  }

  lemma MarkStarts(vis: seq<bool>, w: nat, h: nat)
    requires |vis| == w * h
    ensures Whole(vis, w, h, vis) && Best(vis, w, h, vis, None, 0) && Cleared(vis, vis) == {}
  {
  }

  lemma WholeIsVisible(vis: seq<bool>, w: nat, h: nat, left: seq<bool>)
    requires Whole(vis, w, h, left)
    ensures |left| == |vis| && forall i :: 0 <= i < |left| && left[i] ==> vis[i]
  {
  }

  lemma SeedIsIn(vis: seq<bool>, w: nat, h: nat, seed: nat)
    requires seed < |vis| && vis[seed]
    ensures seed in Component(vis, w, h, seed)
  {
    LinkedSelf(vis, w, h, seed);
  }

  // ---------------------------------------------------------------------------------------------
  // The crop

  function Padded(b: Bounds, w: nat, h: nat, padding: nat): (r: Bounds)
    requires b.minX <= b.maxX < w && b.minY <= b.maxY < h
    ensures r.minX <= b.minX && b.maxX <= r.maxX < w && r.minY <= b.minY && b.maxY <= r.maxY < h
  {
    Bounds(if b.minX < padding then 0 else b.minX - padding, if b.minY < padding then 0 else b.minY - padding,
      Min(w - 1, b.maxX + padding), Min(h - 1, b.maxY + padding))
  }

  /** The padded box holds exactly the pixels of the image within the padding of the box. */
  lemma PaddedIff(b: Bounds, w: nat, h: nat, padding: nat, x: nat, y: nat)
    requires b.minX <= b.maxX < w && b.minY <= b.maxY < h
    ensures
      var r := Padded(b, w, h, padding);
      && (r.minX <= x <= r.maxX <==> x < w && b.minX <= x + padding && x <= b.maxX + padding)
      && (r.minY <= y <= r.maxY <==> y < h && b.minY <= y + padding && y <= b.maxY + padding)
  {
  }

  function Offset(x: nat, y: nat, w: nat): (o: nat) {
    Product(y, w);
    4 * (y * w + x)
  }

  lemma OffsetFits(x: nat, y: nat, w: nat, h: nat)
    requires x <= w && y < h
    ensures Offset(x, y, w) <= 4 * (w * h)
  {
    Multiples(y, h, w);
    assert h * w == w * h;
  }

  /** The first `rows` rows of the crop. */
  function Rows(pixels: seq<byte>, w: nat, h: nat, b: Bounds, rows: nat): (r: seq<byte>)
    requires 4 * (w * h) <= |pixels| && b.minX <= b.maxX < w && b.minY + rows <= h
    ensures |r| == Offset(0, rows, b.maxX - b.minX + 1)
  {
    if rows == 0 then [] else
    var cw := b.maxX - b.minX + 1;
    var y := b.minY + rows - 1;
    OffsetFits(b.minX + cw, y, w, h);
    assert rows * cw == (rows - 1) * cw + cw;
    Rows(pixels, w, h, b, rows - 1) + pixels[Offset(b.minX, y, w)..Offset(b.minX + cw, y, w)]
  }

  /** Every channel of every cropped pixel is the one at the same place of the source. */
  lemma {:induction false} RowsCopyPixels(
    pixels: seq<byte>, w: nat, h: nat, b: Bounds, rows: nat, x: nat, y: nat, channel: nat)
    requires 4 * (w * h) <= |pixels| && b.minX <= b.maxX < w && b.minY + rows <= h
    requires x <= b.maxX - b.minX && y < rows && channel < 4
    ensures Offset(x, y, b.maxX - b.minX + 1) + channel < |Rows(pixels, w, h, b, rows)|
    ensures Offset(b.minX + x, b.minY + y, w) + channel < |pixels|
    ensures Rows(pixels, w, h, b, rows)[Offset(x, y, b.maxX - b.minX + 1) + channel] ==
      pixels[Offset(b.minX + x, b.minY + y, w) + channel]
  {
    hide Offset;
    var cw := b.maxX - b.minX + 1;
    OffsetFits(b.minX + x + 1, b.minY + y, w, h);
    OffsetAlong(0, y, cw, x);
    OffsetAlong(0, rows - 1, cw, cw);
    OffsetAlong(b.minX, b.minY + y, w, x);
    OffsetAlong(b.minX, b.minY + y, w, x + 1);
    RowsNext(pixels, w, h, b, rows - 1);
    if y < rows - 1 {
      RowsCopyPixels(pixels, w, h, b, rows - 1, x, y, channel);
    } else {
      var front := Rows(pixels, w, h, b, rows - 1);
      var row := pixels[Offset(b.minX, b.minY + y, w)..Offset(b.minX + cw, b.minY + y, w)];
      assert Rows(pixels, w, h, b, rows) == front + row;
      assert row[4 * x + channel] == pixels[Offset(b.minX, b.minY + y, w) + 4 * x + channel];
    }
  }

  lemma OffsetAlong(x: nat, y: nat, w: nat, n: nat)
    ensures Offset(x + n, y, w) == Offset(x, y, w) + 4 * n
  {
  }

  datatype Cropped = Cropped(width: nat, height: nat, pixels: seq<byte>)

  datatype CropError = NoVisibleMark

  /** Crop to the padded, clamped box of the primary mark; refuse an image with nothing visible. */
  method Crop(pixels: seq<byte>, w: nat, h: nat, threshold: int, padding: nat)
    returns (r: Result<Cropped, CropError>, ghost m: nat, ghost box: Bounds)
    requires 4 * (w * h) <= |pixels|
    ensures
      var vis := Visible(pixels, w, h, threshold);
      && (r.Err? <==> forall i :: 0 <= i < |vis| ==> !vis[i])
      && (r.Ok? ==>
            && box.minX <= box.maxX < w && box.minY <= box.maxY < h && IsPrimary(vis, w, h, m, box)
            && var b := Padded(box, w, h, padding);
               && r.value.width == b.maxX - b.minX + 1 && r.value.height == b.maxY - b.minY + 1
               && r.value.pixels == Rows(pixels, w, h, b, r.value.height))
  {
    hide IsPrimary, Visible, Component;
    box := Bounds(0, 0, 0, 0);
    var largest;
    ghost var total;
    largest, m, total := FindMark(pixels, w, h, threshold);
    if largest.None? {
      return Err(NoVisibleMark), m, box;
    }
    box := largest.value.bounds;
    PrimaryFits(Visible(pixels, w, h, threshold), w, h, m, box);
    var b := Padded(largest.value.bounds, w, h, padding);
    var bytes := CopyRows(pixels, w, h, b);
    return Ok(Cropped(b.maxX - b.minX + 1, b.maxY - b.minY + 1, bytes)), m, box;
  }

  /** Copy the box row by row into a buffer of its size. */
  method CopyRows(pixels: seq<byte>, w: nat, h: nat, b: Bounds) returns (r: seq<byte>)
    requires 4 * (w * h) <= |pixels| && b.minX <= b.maxX < w && b.minY <= b.maxY < h
    ensures r == Rows(pixels, w, h, b, b.maxY - b.minY + 1)
  {
    hide Offset, Rows;
    var cw, ch := b.maxX - b.minX + 1, b.maxY - b.minY + 1;
    Product(cw, ch);
    SizeIs(cw, ch);
    var cropped := new byte[cw * ch * 4];
    var y := 0;
    NoRows(pixels, w, h, b);
    while y < ch
      invariant y <= ch && Offset(0, y, cw) <= cropped.Length
      invariant cropped[..Offset(0, y, cw)] == Rows(pixels, w, h, b, y)
    {
      RowsNext(pixels, w, h, b, y);
      OffsetFits(cw, y, cw, ch);
      CopyRow(cropped, Offset(0, y, cw), pixels[Offset(b.minX, b.minY + y, w)..Offset(b.minX + cw, b.minY + y, w)]);
      y := y + 1;
    }
    assert cropped[..cropped.Length] == cropped[..];
    return cropped[..];
  }

  lemma SizeIs(cw: nat, ch: nat)
    ensures Offset(0, ch, cw) == cw * ch * 4 && Offset(0, 0, cw) == 0
  {
    assert ch * cw == cw * ch;
  }

  lemma NoRows(pixels: seq<byte>, w: nat, h: nat, b: Bounds)
    requires 4 * (w * h) <= |pixels| && b.minX <= b.maxX < w && b.minY <= h
    ensures Rows(pixels, w, h, b, 0) == []
  {
  }

  lemma RowsNext(pixels: seq<byte>, w: nat, h: nat, b: Bounds, y: nat)
    requires 4 * (w * h) <= |pixels| && b.minX <= b.maxX < w && b.minY + y < h
    ensures
      var cw := b.maxX - b.minX + 1;
      var lo, hi := Offset(b.minX, b.minY + y, w), Offset(b.minX + cw, b.minY + y, w);
      && lo <= hi <= |pixels| && hi - lo == 4 * cw
      && Rows(pixels, w, h, b, y + 1) == Rows(pixels, w, h, b, y) + pixels[lo..hi]
      && Offset(0, y + 1, cw) == Offset(0, y, cw) + 4 * cw == Offset(cw, y, cw)
  {
    var cw := b.maxX - b.minX + 1;
    OffsetFits(b.minX + cw, b.minY + y, w, h);
    assert (y + 1) * cw == y * cw + cw;
  }

  method CopyRow(target: array<byte>, at: nat, row: seq<byte>)
    requires at + |row| <= target.Length
    modifies target
    ensures target[..at] == old(target[..at]) && target[at..at + |row|] == row
    ensures target[..at + |row|] == old(target[..at]) + row
  {
    var k := 0;
    while k < |row|
      invariant k <= |row| && target[..at] == old(target[..at]) && target[at..at + k] == row[..k]
    {
      target[at + k] := row[k];
      k := k + 1;
    }
  }

  lemma PrimaryFits(vis: seq<bool>, w: nat, h: nat, m: nat, b: Bounds)
    requires IsPrimary(vis, w, h, m, b) && |vis| == w * h
    ensures b.minX <= b.maxX < w && b.minY <= b.maxY < h
  {
    hide Linked, X, Y;
    var s := Component(vis, w, h, m);
    SeedIsIn(vis, w, h, m);
    var i :| i in s && Y(i, w) == b.maxY;
    RowIsBelow(i, w, h);
  }
}
