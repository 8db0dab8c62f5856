/** What every call of the allocator keeps, over every run. */
module HeapRuns {
  import opened Bytes
  import opened HeapSpec

  // ---------------------------------------------------------------------------------------------
  // Shape

  /** The cells tile `[at, end)` and then each remaining arena, exactly and in order. */
  ghost predicate Tiles(cells: seq<Cell>, at: nat, end: nat, rest: seq<Arena>)
    decreases |cells| + |rest|
  {
    if at == end then
      if rest == [] then cells == []
      else Tiles(cells, rest[0].base, rest[0].base + rest[0].length, rest[1..])
    else cells != [] && cells[0].address == at && End(cells[0]) <= end && Tiles(cells[1..], End(cells[0]), end, rest)
  }

  /** No arena starts where the one before it in the list ends. */
  ghost predicate Apart(end: nat, rest: seq<Arena>)
    decreases rest
  {
    rest == [] || (0 < rest[0].length && rest[0].base != end && Apart(rest[0].base + rest[0].length, rest[1..]))
  }

  ghost predicate Separate(a: Arena, b: Arena) {
    a.base + a.length < b.base || b.base + b.length < a.base
  }

  ghost predicate GoodArena(a: Arena) {
    4_096 <= a.base && a.base % 16 == 0 && a.length % 16 == 0 && ARENA_BYTES <= a.length && a.base + a.length <= WORD
  }

  ghost predicate GoodArenas(arenas: seq<Arena>) {
    && (forall a :: a in arenas ==> GoodArena(a))
    && (forall i, j :: 0 <= i < j < |arenas| ==> Separate(arenas[i], arenas[j]))
  }

  ghost predicate Aligned(cells: seq<Cell>) {
    forall c :: c in cells ==> c.address % 16 == 0 && c.size % 16 == 0
  }

  ghost predicate Inv(s: State) {
    && Tiles(s.cells, 0, 0, s.arenas) && GoodArenas(s.arenas) && Apart(0, s.arenas)
    && Aligned(s.cells) && Pairs(s.cells) <= 1
  }

  /** The system's answer to a map call: a fresh, aligned range with guards around it. */
  ghost predicate GoodReply(s: State, minimum: nat, reply: Option<Arena>) {
    reply.Some? ==>
      && GoodArena(reply.value) && ArenaRequest(minimum) <= reply.value.length
      && forall a :: a in s.arenas ==> Separate(reply.value, a)
  }

  ghost predicate Inside(c: Cell, lo: nat, hi: nat) {
    lo <= c.address && End(c) <= hi
  }

  ghost predicate InSome(c: Cell, arenas: seq<Arena>) {
    exists a :: a in arenas && Inside(c, a.base, a.base + a.length)
  }

  lemma {:induction false} TiledInside(cells: seq<Cell>, at: nat, end: nat, rest: seq<Arena>, c: Cell)
    requires Tiles(cells, at, end, rest) && c in cells && at <= end
    ensures Inside(c, at, end) || InSome(c, rest)
    decreases |cells| + |rest|
  {
    if at == end {
      var a, more := rest[0], rest[1..];
      assert a in rest && forall x :: x in more ==> x in rest;
      TiledInside(cells, a.base, a.base + a.length, more, c);
    } else if c != cells[0] {
      TiledInside(cells[1..], End(cells[0]), end, rest, c);
    }
  }

  ghost predicate Clear(a: Cell, b: Cell) {
    End(a) <= b.address || End(b) <= a.address
  }

  /** Different cells of a tiled heap never overlap. */
  lemma {:induction false} TiledDisjoint(cells: seq<Cell>, at: nat, end: nat, rest: seq<Arena>, i: nat, j: nat)
    requires Tiles(cells, at, end, rest) && i < j < |cells| && at <= end && GoodArenas(rest)
    requires forall a :: a in rest ==> end <= a.base || a.base + a.length <= at
    ensures Clear(cells[i], cells[j])
    decreases |cells| + |rest|
  {
    if at == end {
      var a, more := rest[0], rest[1..];
      forall x | x in more ensures x in rest && (a.base + a.length <= x.base || x.base + x.length <= a.base) {
        var k :| 0 <= k < |more| && more[k] == x;
        assert Separate(rest[0], rest[k + 1]);
      }
      forall p, q | 0 <= p < q < |more| ensures Separate(more[p], more[q]) {
        assert Separate(rest[p + 1], rest[q + 1]);
      }
      TiledDisjoint(cells, a.base, a.base + a.length, more, i, j);
    } else if i == 0 {
      TiledInside(cells[1..], End(cells[0]), end, rest, cells[j]);
    } else {
      TiledDisjoint(cells[1..], End(cells[0]), end, rest, i - 1, j - 1);
    }
  }

  lemma CellsDisjoint(s: State, i: nat, j: nat)
    requires Inv(s) && i < |s.cells| && j < |s.cells| && i != j
    ensures Clear(s.cells[i], s.cells[j]) && s.cells[i].address != s.cells[j].address
  {
    if i < j {
      TiledDisjoint(s.cells, 0, 0, s.arenas, i, j);
    } else {
      TiledDisjoint(s.cells, 0, 0, s.arenas, j, i);
    }
  }

  /** Cells are found again by their address. */
  lemma FindIs(s: State, i: nat)
    requires Inv(s) && i < |s.cells|
    ensures Find(s.cells, s.cells[i].address) == i
  {
    var k := Find(s.cells, s.cells[i].address);
    if k < i {
      CellsDisjoint(s, k, i);
    }
  }

  /** In a tiled heap a cell ends where another begins only if that one is next in the list. */
  lemma {:induction false} TiledTouching(cells: seq<Cell>, at: nat, end: nat, rest: seq<Arena>, i: nat, j: nat)
    requires Tiles(cells, at, end, rest) && i < |cells| && j < |cells| && at <= end && GoodArenas(rest)
    requires forall a :: a in rest ==> end < a.base || a.base + a.length < at
    requires End(cells[i]) == cells[j].address
    ensures j == i + 1
    decreases |cells| + |rest|
  {
    if at == end {
      var a, more := rest[0], rest[1..];
      NextArena(rest);
      TiledTouching(cells, a.base, a.base + a.length, more, i, j);
    } else if i == 0 {
      TouchedByFirst(cells, at, end, rest, j);
    } else if j == 0 {
      TiledInside(cells[1..], End(cells[0]), end, rest, cells[i]);
    } else {
      TiledTouching(cells[1..], End(cells[0]), end, rest, i - 1, j - 1);
    }
  }

  /** The first arena stands apart from the others, which are good themselves. */
  lemma NextArena(rest: seq<Arena>)
    requires rest != [] && GoodArenas(rest)
    ensures
      var a, more := rest[0], rest[1..];
      GoodArenas(more) && forall x :: x in more ==> a.base + a.length < x.base || x.base + x.length < a.base
  {
    var a, more := rest[0], rest[1..];
    forall x | x in more ensures Separate(a, x) && x in rest {
      var k :| 0 <= k < |more| && more[k] == x;
      assert Separate(rest[0], rest[k + 1]);
    }
    forall p, q | 0 <= p < q < |more| ensures Separate(more[p], more[q]) {
      assert Separate(rest[p + 1], rest[q + 1]);
    }
  }

  lemma TouchedByFirst(cells: seq<Cell>, at: nat, end: nat, rest: seq<Arena>, j: nat)
    requires Tiles(cells, at, end, rest) && j < |cells| && at < end && GoodArenas(rest)
    requires forall a :: a in rest ==> end < a.base || a.base + a.length < at
    requires End(cells[0]) == cells[j].address
    ensures j == 1
  {
    var tail := cells[1..];
    if 2 <= j {
      if End(cells[0]) == end {
        TiledInside(tail, end, end, rest, cells[j]);
      } else {
        assert tail[0] == cells[1] && tail[j - 1] == cells[j];
        TiledDisjoint(tail, End(cells[0]), end, rest, 0, j - 1);
      }
    }
  }

  /** Blocks that touch in address are neighbours in the list. */
  lemma TouchingIsNext(s: State, i: nat, j: nat)
    requires Inv(s) && i < |s.cells| && j < |s.cells| && End(s.cells[i]) == s.cells[j].address
    ensures j == i + 1
  {
    TiledTouching(s.cells, 0, 0, s.arenas, i, j);
  }

  /** Free blocks `i` and `j`, wherever they stand in the list, touch in address. */
  ghost predicate Touching(s: State, i: nat, j: nat) {
    i < |s.cells| && j < |s.cells| && Mergeable(s.cells[i], s.cells[j])
  }

  lemma {:induction false} PairIsCounted(cells: seq<Cell>, i: nat)
    requires i + 1 < |cells| && Mergeable(cells[i], cells[i + 1])
    ensures 1 <= Pairs(cells)
  {
    if 0 < i {
      PairIsCounted(cells[1..], i - 1);
    }
  }

  lemma {:induction false} PairsAreCounted(cells: seq<Cell>, i: nat, k: nat)
    requires i < k && k + 1 < |cells| && Mergeable(cells[i], cells[i + 1]) && Mergeable(cells[k], cells[k + 1])
    ensures 2 <= Pairs(cells)
  {
    if 0 < i {
      PairsAreCounted(cells[1..], i - 1, k - 1);
    } else {
      PairIsCounted(cells[1..], k - 1);
    }
  }

  /** Of all the blocks of the heap, at most one pair of free ones is adjacent in address. */
  ghost predicate OnePairAtMost(s: State) {
    forall i: nat, j: nat, k: nat, l: nat :: Touching(s, i, j) && Touching(s, k, l) ==> i == k && j == l
  }

  lemma ValidHasOnePair(s: State)
    requires Inv(s)
    ensures OnePairAtMost(s)
  {
    hide Tiles, Apart, Aligned, Pairs, GoodArenas;
    forall i: nat, j: nat, k: nat, l: nat | Touching(s, i, j) && Touching(s, k, l) ensures i == k && j == l {
      TouchingIsNext(s, i, j);
      TouchingIsNext(s, k, l);
      if i < k {
        PairsAreCounted(s.cells, i, k);
      } else if k < i {
        PairsAreCounted(s.cells, k, i);
      }
    }
  }

  // ---------------------------------------------------------------------------------------------
  // Carving, coalescing and growing keep the shape

  lemma {:induction false} CarveTiles(cells: seq<Cell>, at: nat, end: nat, rest: seq<Arena>, i: nat, n: nat)
    requires Tiles(cells, at, end, rest) && i < |cells| && n <= cells[i].size
    ensures Tiles(Carve(cells, i, n), at, end, rest)
    decreases |cells| + |rest|
  {
    if at == end {
      CarveTiles(cells, rest[0].base, rest[0].base + rest[0].length, rest[1..], i, n);
    } else if i == 0 {
      var cut, more := Cut(cells[0], n), cells[1..];
      assert Carve(cells, 0, n) == cut + more;
      if |cut| == 2 {
        assert (cut + more)[1..] == [cut[1]] + more && ([cut[1]] + more)[1..] == more;
        assert Tiles([cut[1]] + more, End(cut[0]), end, rest);
      } else {
        assert (cut + more)[1..] == more;
      }
    } else {
      CarveTiles(cells[1..], End(cells[0]), end, rest, i - 1, n);
      CarveCons(cells, i, n);
      assert Carve(cells, i, n)[1..] == Carve(cells[1..], i - 1, n);
    }
  }

  lemma {:induction false} MarkTiles(cells: seq<Cell>, at: nat, end: nat, rest: seq<Arena>, i: nat)
    requires Tiles(cells, at, end, rest) && i < |cells|
    ensures Tiles(cells[i := cells[i].(free := true)], at, end, rest)
    decreases |cells| + |rest|
  {
    var marked := cells[i := cells[i].(free := true)];
    if at == end {
      MarkTiles(cells, rest[0].base, rest[0].base + rest[0].length, rest[1..], i);
    } else if i == 0 {
      assert marked[1..] == cells[1..];
    } else {
      MarkTiles(cells[1..], End(cells[0]), end, rest, i - 1);
      assert marked[1..] == cells[1..][i - 1 := cells[i].(free := true)];
    }
  }

  /** Between arenas, the next cell is the first of the next arena. */
  lemma FirstOfArena(cells: seq<Cell>, end: nat, rest: seq<Arena>)
    requires Tiles(cells, end, end, rest) && cells != [] && (rest != [] ==> 0 < rest[0].length)
    ensures rest != [] && cells[0].address == rest[0].base
  {
    assert rest != [] && Tiles(cells, rest[0].base, rest[0].base + rest[0].length, rest[1..]);
  }

  /** Touching cells belong to one arena. */
  lemma TouchingIsInside(cells: seq<Cell>, at: nat, end: nat, rest: seq<Arena>)
    requires Tiles(cells, at, end, rest) && Apart(end, rest) && at != end && 2 <= |cells|
    requires End(cells[0]) == cells[1].address
    ensures End(cells[0]) != end && End(cells[1]) <= end && Tiles(cells[2..], End(cells[1]), end, rest)
  {
    var tail := cells[1..];
    assert tail[1..] == cells[2..];
    if End(cells[0]) == end {
      FirstOfArena(tail, end, rest);
    }
  }

  lemma {:induction false} CoalesceTiles(cells: seq<Cell>, at: nat, end: nat, rest: seq<Arena>)
    requires Tiles(cells, at, end, rest) && Apart(end, rest)
    ensures Tiles(Coalesce(cells), at, end, rest)
    decreases |cells| + |rest|
  {
    if at == end {
      if rest != [] {
        CoalesceTiles(cells, rest[0].base, rest[0].base + rest[0].length, rest[1..]);
      }
    } else if 2 <= |cells| {
      var out := Coalesce(cells);
      if Mergeable(cells[0], cells[1]) {
        TouchingIsInside(cells, at, end, rest);
        CoalesceTiles(cells[2..], End(cells[1]), end, rest);
        assert out[1..] == Coalesce(cells[2..]);
      } else {
        CoalesceTiles(cells[1..], End(cells[0]), end, rest);
        assert out[1..] == Coalesce(cells[1..]);
      }
    }
  }

  lemma {:induction false} CoalesceAligned(cells: seq<Cell>)
    requires Aligned(cells)
    ensures Aligned(Coalesce(cells))
  {
    hide Aligned;
    if 2 <= |cells| {
      var a, b, rest := cells[0], cells[1], cells[2..];
      assert cells[1..] == [b] + rest && cells == [a] + cells[1..];
      AlignedCons(a, cells[1..]);
      AlignedCons(b, rest);
      if Mergeable(a, b) {
        CoalesceAligned(rest);
        AlignedCons(Cell(a.address, a.size + 32 + b.size, true), Coalesce(rest));
      } else {
        CoalesceAligned(cells[1..]);
        AlignedCons(a, Coalesce(cells[1..]));
      }
    }
  }

  lemma AlignedCons(c: Cell, rest: seq<Cell>)
    ensures Aligned([c] + rest) <==> c.address % 16 == 0 && c.size % 16 == 0 && Aligned(rest)
  {
    assert c in [c] + rest;
    assert forall x :: x in rest ==> x in [c] + rest;
  }

  /** A pass touches free cells only. */
  lemma {:induction false} CoalesceKeepsLive(cells: seq<Cell>, c: Cell)
    requires !c.free
    ensures c in Coalesce(cells) <==> c in cells
  {
    if 2 <= |cells| {
      assert cells == [cells[0]] + cells[1..];
      if Mergeable(cells[0], cells[1]) {
        assert cells == [cells[0], cells[1]] + cells[2..];
        CoalesceKeepsLive(cells[2..], c);
      } else {
        CoalesceKeepsLive(cells[1..], c);
      }
    }
  }

  lemma CarveMembers(cells: seq<Cell>, i: nat, n: nat)
    requires i < |cells| && n <= cells[i].size && cells[i].free
    ensures forall c :: c in Carve(cells, i, n) && !c.free <==> (c in cells && !c.free) || c == Cut(cells[i], n)[0]
    ensures Aligned(cells) && n % 16 == 0 ==> Aligned(Carve(cells, i, n))
  {
    hide Carve, Cut;
    CutPieces(cells[i], n);
    CarveParts(cells, i, n);
    assert cells[i] in cells;
  }

  /** The members of a carved list: the others, and the pieces of the cell. */
  lemma CarveParts(cells: seq<Cell>, i: nat, n: nat)
    requires i < |cells| && n <= cells[i].size
    ensures forall c :: c in Carve(cells, i, n) ==> c in cells || c in Cut(cells[i], n)
    ensures forall c :: c in Cut(cells[i], n) ==> c in Carve(cells, i, n)
    ensures forall c :: c in cells && c != cells[i] ==> c in Carve(cells, i, n)
  {
    hide Cut;
    assert cells == cells[..i] + [cells[i]] + cells[i + 1..];
  }

  lemma CutPieces(cell: Cell, n: nat)
    requires n <= cell.size
    ensures
      var cut := Cut(cell, n);
      && cut != [] && cut[0] in cut && !cut[0].free && (forall c :: c in cut && !c.free ==> c == cut[0])
      && (cell.address % 16 == 0 && cell.size % 16 == 0 && n % 16 == 0 ==> Aligned(cut))
  {
    var cut := Cut(cell, n);
    assert forall c :: c in cut ==> c == cut[0] || c == cut[|cut| - 1];
  }

  // ---------------------------------------------------------------------------------------------
  // Calls

  /** Take cell `i` for `n` bytes; the pointer is the address behind its header. */
  function Take(s: State, i: nat, n: nat): (r: (State, Option<nat>))
    requires i < |s.cells| && n <= s.cells[i].size
  {
    (s.(cells := Carve(s.cells, i, n)), Some(s.cells[i].address + 32))
  }

  function Grow(s: State, a: Arena): (r: State)
    requires 32 <= a.length
  {
    s.(cells := [Cell(a.base, a.length - 32, true)] + s.cells, arenas := [a] + s.arenas)
  }

  /** `malloc`; `reply` is what the system would answer if asked for an arena. */
  function Malloc(s: State, size: nat, reply: Option<Arena>): (r: (State, Option<nat>))
    requires Answers(size, reply)
  {
    if size > WORD - 16 then (s, None) else
    var n := Needed(size);
    var i := FirstFit(s.cells, n);
    if i < |s.cells| then Take(s, i, n)
    else if reply.None? then (s, None)
    else Take(Grow(s, reply.value), 0, n)
  }

  /** A granted arena holds the block it was asked for. */
  predicate Answers(size: nat, reply: Option<Arena>) {
    size <= WORD - 16 && reply.Some? ==> Needed(size) + 32 <= reply.value.length
  }

  lemma GoodReplyAnswers(s: State, size: nat, reply: Option<Arena>)
    requires NoWrap(size) && GoodReply(s, Needed(size), reply)
    ensures Answers(size, reply)
  {
  }

  /** A request that is refused outright, or whose arena request does not wrap. */
  predicate NoWrap(size: nat) {
    size > WORD - 16 || Needed(size) + 32 < WORD
  }

  /** The live cell behind pointer `p`. */
  ghost predicate LiveAt(s: State, p: int, n: nat) {
    32 <= p && Cell(p - 32, n, false) in s.cells
  }

  lemma GrowKeeps(s: State, a: Arena)
    requires Inv(s) && GoodArena(a) && forall x :: x in s.arenas ==> Separate(a, x)
    ensures Tiles(Grow(s, a).cells, 0, 0, Grow(s, a).arenas) && GoodArenas(Grow(s, a).arenas)
    ensures Apart(0, Grow(s, a).arenas) && Aligned(Grow(s, a).cells) && Pairs(Grow(s, a).cells) <= 1
  {
    var g, c := Grow(s, a), Cell(a.base, a.length - 32, true);
    assert g.cells[1..] == s.cells && g.arenas[1..] == s.arenas;
    PairsCons(c, s.cells);
    if s.cells != [] {
      FirstOfArena(s.cells, 0, s.arenas);
      assert Separate(a, s.arenas[0]);
    }
    forall i, j | 0 <= i < j < |g.arenas| ensures Separate(g.arenas[i], g.arenas[j]) {
      if i == 0 {
        assert g.arenas[j] in s.arenas;
      } else {
        assert Separate(s.arenas[i - 1], s.arenas[j - 1]);
      }
    }
    if s.arenas != [] {
      assert s.arenas[0] in s.arenas;
      assert Separate(a, s.arenas[0]);
    }
  }

  lemma TakeKeeps(s: State, i: nat, n: nat)
    requires Inv(s) && i < |s.cells| && s.cells[i].free && n <= s.cells[i].size && n % 16 == 0
    ensures Inv(Take(s, i, n).0)
    ensures
      var (after, p) := Take(s, i, n);
      && p.Some? && p.value % 16 == 0
      && (exists m :: n <= m && LiveAt(after, p.value, m))
      && (forall c :: c in after.cells && !c.free && c.address + 32 != p.value ==> c in s.cells)
      && (forall c :: c in s.cells && !c.free ==> c in after.cells && c.address + 32 != p.value)
  {
    hide Carve, Tiles, Apart, GoodArenas, Pairs;
    var after := Take(s, i, n).0;
    CarveTiles(s.cells, 0, 0, s.arenas, i, n);
    CarvingAddsNone(s.cells, i, n);
    CarveMembers(s.cells, i, n);
    var cut := Cut(s.cells[i], n)[0];
    assert s.cells[i] in s.cells;
    assert LiveAt(after, cut.address + 32, cut.size);
    forall c | c in s.cells && !c.free ensures c.address != s.cells[i].address {
      var k :| 0 <= k < |s.cells| && s.cells[k] == c;
      CellsDisjoint(s, k, i);
    }
  }

  /** Every successful `malloc` returns a fresh, 16-aligned payload at least as long as requested
      and leaves every live block alone; a failed one changes nothing. */
  lemma MallocKeeps(s: State, size: nat, reply: Option<Arena>)
    requires Inv(s) && NoWrap(size) && GoodReply(s, Needed(size), reply)
    ensures Answers(size, reply)
    ensures
      var (after, p) := Malloc(s, size, reply);
      && Inv(after) && after.memory == s.memory
      && (p.None? ==> after == s)
      && (p.Some? ==>
            && p.value % 16 == 0
            && (exists m :: size <= m && LiveAt(after, p.value, m))
            && (forall c :: c in after.cells && !c.free && c.address + 32 != p.value ==> c in s.cells)
            && (forall c :: c in s.cells && !c.free ==> c in after.cells && c.address + 32 != p.value))
  {
    hide Tiles, Apart, Carve, Aligned, Pairs;
    GoodReplyAnswers(s, size, reply);
    if size <= WORD - 16 {
      var n := Needed(size);
      var i := FirstFit(s.cells, n);
      if i < |s.cells| {
        TakeKeeps(s, i, n);
      } else if reply.Some? {
        GrowKeeps(s, reply.value);
        var g := Grow(s, reply.value);
        assert g.cells[0].free && n <= g.cells[0].size;
        TakeKeeps(g, 0, n);
        assert forall c :: c in g.cells && !c.free <==> c in s.cells && !c.free;
      }
    }
  }

  /** What `malloc` promises of a call in state `s`: the block it uses is large enough, and the call
      behaves as `MallocKeeps` says. */
  ghost predicate Serves(s: State, size: nat, reply: Option<Arena>) {
    && Answers(size, reply)
    && var (after, p) := Malloc(s, size, reply);
       && Inv(after) && after.memory == s.memory
       && (p.None? ==> after == s)
       && (p.Some? ==>
             && p.value % 16 == 0 && (exists m :: size <= m && LiveAt(after, p.value, m))
             && (forall c :: c in s.cells && !c.free ==> c in after.cells && c.address + 32 != p.value))
  }

  /** No block of a valid heap is as long as a request that wraps. */
  lemma NoBlockIsThatLong(s: State, p: int, m: nat, size: nat)
    requires Inv(s) && LiveAt(s, p, m) && !NoWrap(size)
    ensures m < size
  {
    TiledInside(s.cells, 0, 0, s.arenas, Cell(p - 32, m, false));
  }

  /** The split test adds two headers to the size; in a valid heap that sum never wraps. */
  lemma SplitDoesNotWrap(s: State, i: nat, n: nat)
    requires Inv(s) && i < |s.cells| && n <= s.cells[i].size
    ensures n + 64 < WORD
  {
    assert s.cells[i] in s.cells;
    TiledInside(s.cells, 0, 0, s.arenas, s.cells[i]);
  }

  /** Whatever the heap and the system's answer, a granted arena holds the block it was asked for. */
  ghost predicate AlwaysAnswered(size: nat) {
    forall s, reply :: Inv(s) && GoodReply(s, Needed(size), reply) ==> Answers(size, reply)
  }

  /** That is so if and only if the sum in the arena request does not wrap; it is the condition under
      which `malloc`, `calloc` and `realloc` are shown to keep their promises. */
  lemma AnsweredIff(size: nat)
    ensures AlwaysAnswered(size) <==> NoWrap(size)
  {
    hide Inv;
    if NoWrap(size) {
      forall s, reply | Inv(s) && GoodReply(s, Needed(size), reply) ensures Answers(size, reply) {
        GoodReplyAnswers(s, size, reply);
      }
    } else {
      var s, reply := State([], [], map[]), Some(Arena(4_096, 65_536));
      EmptyIsValid(s);
      assert GoodReply(s, Needed(size), reply) && !Answers(size, reply);
    }
  }

  /** `malloc` keeps its promise for every heap and every answer of the system if and only if the sum
      in its arena request does not wrap. Otherwise the system may grant an arena shorter than the
      block that is then cut from it. */
  lemma MallocServesIff(size: nat)
    ensures (forall s, reply :: Inv(s) && GoodReply(s, Needed(size), reply) ==> Serves(s, size, reply)) <==> NoWrap(size)
  {
    hide Inv, Malloc, Answers, GoodReply;
    AnsweredIff(size);
    if NoWrap(size) {
      forall s, reply | Inv(s) && GoodReply(s, Needed(size), reply) ensures Serves(s, size, reply) {
        MallocKeeps(s, size, reply);
      }
    } else {
      var s, reply :| Inv(s) && GoodReply(s, Needed(size), reply) && !Answers(size, reply);
      assert !Serves(s, size, reply);
    }
  }

  lemma EmptyIsValid(s: State)
    requires s == State([], [], map[])
    ensures Inv(s)
  {
  }

  /** What the code does with a wrapped request: the granted block passes the wrapped split test, and
      the tail it writes overlaps the block's own header. */
  lemma WrappedTailOverlaps(size: nat, a: Arena)
    requires !NoWrap(size) && GoodArena(a) && a.length < WORD - 4_096
    ensures
      var n := Needed(size);
      && ArenaRequest(n) == ARENA_BYTES
      && a.length - 32 >= (n + 64) % WORD
      && a.base - 32 < (a.base + 32 + n) % WORD < a.base + 32
  {
    var n := Needed(size);
    assert n == WORD - 32 || n == WORD - 16;
    assert (a.base + 32 + n) % WORD == a.base + 32 + n - WORD;
  }

  /** `free` of a pointer; `None` is the abort on a block that is already free. */
  function FreeAt(s: State, p: nat): (r: Option<State>)
    requires Find(s.cells, p - 32) < |s.cells|
  {
    var i := Find(s.cells, p - 32);
    if s.cells[i].free then None
    else Some(s.(cells := Coalesce(s.cells[i := s.cells[i].(free := true)])))
  }

  /** The whole heap never has more than one pair of address-adjacent free blocks: freeing adds at most
      two pairs and the pass halves them. Only the freed block stops being live. */
  lemma FreeKeeps(s: State, p: nat)
    requires Inv(s) && Find(s.cells, p - 32) < |s.cells| && FreeAt(s, p).Some?
    ensures Inv(FreeAt(s, p).value) && OnePairAtMost(FreeAt(s, p).value)
    ensures forall c :: c in FreeAt(s, p).value.cells && !c.free <==> c in s.cells && !c.free && c.address != p - 32
  {
    var i := Find(s.cells, p - 32);
    var marked := s.cells[i := s.cells[i].(free := true)];
    MarkTiles(s.cells, 0, 0, s.arenas, i);
    CoalesceTiles(marked, 0, 0, s.arenas);
    FreeingAddsTwo(s.cells, i);
    CoalesceHalves(marked);
    assert s.cells[i] in s.cells;
    forall c | c in marked ensures c.address % 16 == 0 && c.size % 16 == 0 {
      var k :| 0 <= k < |marked| && marked[k] == c;
      assert s.cells[k] in s.cells;
    }
    CoalesceAligned(marked);
    ValidHasOnePair(FreeAt(s, p).value);
    forall c: Cell | !c.free ensures c in Coalesce(marked) <==> c in s.cells && c.address != p - 32 {
      CoalesceKeepsLive(marked, c);
      MarkedMembers(s, i, c);
    }
  }

  lemma MarkedMembers(s: State, i: nat, c: Cell)
    requires Inv(s) && i < |s.cells| && !c.free
    ensures c in s.cells[i := s.cells[i].(free := true)] <==> c in s.cells && c.address != s.cells[i].address
  {
    var marked := s.cells[i := s.cells[i].(free := true)];
    if c in marked {
      var k :| 0 <= k < |marked| && marked[k] == c;
      assert s.cells[k] == c;
      CellsDisjoint(s, k, i);
    }
    if c in s.cells && c.address != s.cells[i].address {
      var k :| 0 <= k < |s.cells| && s.cells[k] == c;
      assert marked[k] == c;
    }
  }

  // ---------------------------------------------------------------------------------------------
  // Memory

  function Read(m: map<nat, byte>, a: nat): (b: byte) {
    if a in m then m[a] else 0
  }

  function Fill(m: map<nat, byte>, p: nat, n: nat): (r: map<nat, byte>) {
    if n == 0 then m else Fill(m, p, n - 1)[p + n - 1 := 0]
  }

  function Copy(m: map<nat, byte>, from: nat, to: nat, n: nat): (r: map<nat, byte>) {
    if n == 0 then m else Copy(m, from, to, n - 1)[to + n - 1 := Read(m, from + n - 1)]
  }

  lemma {:induction false} FillAt(m: map<nat, byte>, p: nat, n: nat, a: nat)
    ensures Read(Fill(m, p, n), a) == if p <= a < p + n then 0 else Read(m, a)
  {
    if 0 < n {
      FillAt(m, p, n - 1, a);
    }
  }

  lemma {:induction false} CopyAt(m: map<nat, byte>, from: nat, to: nat, n: nat, a: nat)
    ensures Read(Copy(m, from, to, n), a) == if to <= a < to + n then Read(m, from + (a - to)) else Read(m, a)
  {
    if 0 < n {
      CopyAt(m, from, to, n - 1, a);
    }
  }

  /** The first `n` bytes behind pointer `p`. */
  ghost function Contents(s: State, p: nat, n: nat): (r: seq<byte>)
    ensures |r| == n && forall k :: 0 <= k < n ==> r[k] == Read(s.memory, p + k)
  {
    seq<byte>(n, k requires 0 <= k < n => Read(s.memory, p + k))
  }

  /** Every live block other than those at `p` and `q` keeps its place, size and contents. */
  ghost predicate OthersKept(before: State, after: State, p: int, q: int) {
    forall c :: c in before.cells && !c.free && c.address + 32 != p && c.address + 32 != q ==>
      c in after.cells && Contents(after, c.address + 32, c.size) == Contents(before, c.address + 32, c.size)
  }

  /** `calloc`; the product is checked before it is formed. */
  function Calloc(s: State, count: nat, size: nat, reply: Option<Arena>): (r: (State, Option<nat>))
    requires Answers(count * size, reply)
  {
    if size != 0 && count > (WORD - 1) / size then (s, None) else
    var (after, p) := Malloc(s, count * size, reply);
    if p.None? then (after, None) else (after.(memory := Fill(after.memory, p.value, count * size)), p)
  }

  lemma LiveDisjoint(s: State, c: Cell, d: Cell)
    requires Inv(s) && c in s.cells && d in s.cells && c.address != d.address
    ensures Clear(c, d)
  {
    var i :| 0 <= i < |s.cells| && s.cells[i] == c;
    var j :| 0 <= j < |s.cells| && s.cells[j] == d;
    CellsDisjoint(s, i, j);
  }

  /** A write inside one live block leaves the contents of all others. */
  lemma WriteKeepsOthers(s: State, c: Cell, memory: map<nat, byte>)
    requires Inv(s) && c in s.cells
    requires forall a: nat :: a < c.address + 32 || End(c) <= a ==> Read(memory, a) == Read(s.memory, a)
    ensures OthersKept(s, s.(memory := memory), c.address + 32, c.address + 32) && Inv(s.(memory := memory))
  {
    hide Tiles, Apart, Pairs, Aligned;
    var after := s.(memory := memory);
    forall d | d in s.cells && d.address != c.address
      ensures Contents(after, d.address + 32, d.size) == Contents(s, d.address + 32, d.size)
    {
      LiveDisjoint(s, c, d);
    }
  }

  /** `calloc` behaves as `malloc` of the product, with that many zero bytes. */
  lemma CallocKeeps(s: State, count: nat, size: nat, reply: Option<Arena>)
    requires Inv(s) && NoWrap(count * size) && GoodReply(s, Needed(count * size), reply)
    ensures Answers(count * size, reply)
    ensures
      var (after, p) := Calloc(s, count, size, reply);
      && Inv(after) && (p.None? ==> after == s)
      && (p.Some? ==>
            && p.value % 16 == 0 && (exists m :: count * size <= m && LiveAt(after, p.value, m))
            && Contents(after, p.value, count * size) == Zeros(count * size)
            && OthersKept(s, after, p.value, p.value))
  {
    hide Tiles, Apart, Pairs, Aligned, Malloc, Needed;
    MallocKeeps(s, count * size, reply);
    var (middle, p) := Malloc(s, count * size, reply);
    var after := Calloc(s, count, size, reply).0;
    if p.Some? && !(size != 0 && count > (WORD - 1) / size) {
      var m :| count * size <= m && LiveAt(middle, p.value, m);
      forall a: nat ensures Read(after.memory, a) == if p.value <= a < p.value + count * size then 0 else Read(middle.memory, a) {
        FillAt(middle.memory, p.value, count * size, a);
      }
      WriteKeepsOthers(middle, Cell(p.value - 32, m, false), after.memory);
      assert Contents(after, p.value, count * size) == Zeros(count * size);
      assert LiveAt(after, p.value, m);
    }
  }

  /** `realloc` of a live pointer, or of null (0); `None` as state is an abort. */
  function Realloc(s: State, p: nat, size: nat, reply: Option<Arena>): (r: (Option<State>, Option<nat>))
    requires Answers(size, reply) && (p != 0 ==> Find(s.cells, p - 32) < |s.cells|)
  {
    if p == 0 then
      var (after, q) := Malloc(s, size, reply);
      (Some(after), q)
    else if size == 0 then (FreeAt(s, p), None)
    else
      var i := Find(s.cells, p - 32);
      var oldSize := if s.cells[i].free then 0 else s.cells[i].size;
      if oldSize >= size then (Some(s), Some(p)) else Move(s, p, oldSize, size, reply)
  }

  /** Allocate anew, copy the old bytes, free the old block. */
  function Move(s: State, p: nat, oldSize: nat, size: nat, reply: Option<Arena>): (r: (Option<State>, Option<nat>))
    requires Answers(size, reply)
  {
    var (middle, q) := Malloc(s, size, reply);
    if q.None? then (Some(middle), None)
    else
      var copied := middle.(memory := Copy(middle.memory, p, q.value, oldSize));
      if Find(copied.cells, p - 32) < |copied.cells| then (FreeAt(copied, p), q) else (None, q)
  }

  /** A successful `realloc` returns a live block of at least the requested size that keeps the
      common prefix of the contents; a failed one changes nothing. */
  lemma ReallocKeeps(s: State, p: nat, size: nat, n: nat, reply: Option<Arena>)
    requires Inv(s) && 0 < size && LiveAt(s, p, n)
    requires NoWrap(size) && GoodReply(s, Needed(size), reply)
    ensures Answers(size, reply) && Find(s.cells, p - 32) < |s.cells|
    ensures
      var (after, q) := Realloc(s, p, size, reply);
      && after.Some? && Inv(after.value)
      && (q.None? ==> after.value == s)
      && (q.Some? ==>
            && q.value % 16 == 0 && (exists m :: size <= m && LiveAt(after.value, q.value, m))
            && (var k := if n < size then n else size;
                Contents(after.value, q.value, k) == Contents(s, p, k))
            && OthersKept(s, after.value, p, q.value))
  {
    hide Inv, Needed, FreeAt, Contents, OthersKept, GoodReply, NoWrap, Answers, Move;
    var cell := Cell(p - 32, n, false);
    var i :| 0 <= i < |s.cells| && s.cells[i] == cell;
    FindIs(s, i);
    GoodReplyAnswers(s, size, reply);
    if n < size {
      MoveKeeps(s, p, size, n, reply);
    } else {
      AlignedPointer(s, cell);
      NothingMoves(s, p);
    }
  }

  lemma MoveKeeps(s: State, p: nat, size: nat, n: nat, reply: Option<Arena>)
    requires Inv(s) && n < size && LiveAt(s, p, n)
    requires NoWrap(size) && GoodReply(s, Needed(size), reply) && Answers(size, reply)
    ensures
      var (after, q) := Move(s, p, n, size, reply);
      && after.Some? && Inv(after.value)
      && (q.None? ==> after.value == s)
      && (q.Some? ==>
            && q.value % 16 == 0 && (exists m :: size <= m && LiveAt(after.value, q.value, m))
            && Contents(after.value, q.value, n) == Contents(s, p, n)
            && OthersKept(s, after.value, p, q.value))
  {
    hide Inv, Malloc, Needed, FreeAt, Contents, OthersKept, Copy, GoodReply, NoWrap, Answers, Find;
    MallocKeeps(s, size, reply);
    var (middle, q) := Malloc(s, size, reply);
    if q.Some? {
      ReallocMoves(s, middle, p, q.value, n, size);
    }
  }

  lemma NothingMoves(s: State, p: nat)
    ensures OthersKept(s, s, p, p)
  {
  }

  lemma LiveFrees(s: State, i: nat)
    requires Inv(s) && i < |s.cells| && !s.cells[i].free
    ensures Find(s.cells, s.cells[i].address) < |s.cells| && FreeAt(s, s.cells[i].address + 32).Some?
  {
    hide Tiles, Apart, Pairs, Aligned;
    FindIs(s, i);
  }

  /** The invariant says nothing about memory. */
  lemma MemoryKeepsInv(s: State, memory: map<nat, byte>)
    requires Inv(s)
    ensures Inv(s.(memory := memory))
  {
  }

  lemma AlignedPointer(s: State, c: Cell)
    requires Inv(s) && c in s.cells
    ensures (c.address + 32) % 16 == 0
  {
  }

  lemma CopyMoves(s: State, p: nat, q: nat, n: nat)
    ensures Contents(s.(memory := Copy(s.memory, p, q, n)), q, n) == Contents(s, p, n)
  {
    var copied := s.(memory := Copy(s.memory, p, q, n));
    forall k | 0 <= k < n ensures Contents(copied, q, n)[k] == Contents(s, p, n)[k] {
      CopyAt(s.memory, p, q, n, q + k);
    }
  }

  /** Contents depend on memory alone. */
  lemma SameMemory(s: State, t: State, p: nat, n: nat)
    requires s.memory == t.memory
    ensures Contents(s, p, n) == Contents(t, p, n)
  {
  }

  /** Copying into the new block and freeing the old one. */
  lemma ReallocMoves(s: State, middle: State, p: nat, q: nat, n: nat, size: nat)
    requires Inv(middle) && middle.memory == s.memory && n < size && LiveAt(s, p, n)
    requires exists m :: size <= m && LiveAt(middle, q, m)
    requires forall c :: c in s.cells && !c.free ==> c in middle.cells && c.address + 32 != q
    ensures Find(middle.cells, p - 32) < |middle.cells|
    ensures
      var copied := middle.(memory := Copy(middle.memory, p, q, n));
      var after := FreeAt(copied, p);
      && after.Some? && Inv(after.value) && (exists m :: size <= m && LiveAt(after.value, q, m))
      && Contents(after.value, q, n) == Contents(s, p, n) && OthersKept(s, after.value, p, q)
  {
    hide Inv, Coalesce, Contents, Copy, Read, Find;
    var m :| size <= m && LiveAt(middle, q, m);
    var source, target := Cell(p - 32, n, false), Cell(q - 32, m, false);
    var copied := middle.(memory := Copy(middle.memory, p, q, n));
    LiveDisjoint(middle, source, target);
    forall a: nat | a < q || q + m <= a ensures Read(copied.memory, a) == Read(middle.memory, a) {
      CopyAt(middle.memory, p, q, n, a);
    }
    CopyMoves(middle, p, q, n);
    assert target.address + 32 == q && End(target) == q + m;
    WriteKeepsOthers(middle, target, copied.memory);
    var i :| 0 <= i < |middle.cells| && middle.cells[i] == source;
    FindIs(middle, i);
    FreeKeeps(copied, p);
    var after := FreeAt(copied, p).value;
    assert LiveAt(after, q, m);
    SameMemory(after, copied, q, n);
    SameMemory(middle, s, p, n);
    forall c | c in s.cells && !c.free && c.address + 32 != p && c.address + 32 != q
      ensures c in after.cells && Contents(after, c.address + 32, c.size) == Contents(s, c.address + 32, c.size)
    {
      SameMemory(after, copied, c.address + 32, c.size);
      SameMemory(middle, s, c.address + 32, c.size);
    }
  }

  // ---------------------------------------------------------------------------------------------
  // Runs

  datatype Call =
    | DoMalloc(size: nat, reply: Option<Arena>)
    | DoCalloc(count: nat, size: nat, reply: Option<Arena>)
    | DoRealloc(pointer: nat, size: nat, reply: Option<Arena>)
    | DoFree(pointer: nat)
    | DoStore(address: nat, value: byte)

  ghost predicate Live(s: State, p: nat) {
    exists n :: LiveAt(s, p, n)
  }

  /** What callers and the system owe: sizes that do not wrap, good replies, live pointers. */
  ghost predicate Allowed(s: State, call: Call) {
    match call
    case DoMalloc(size, reply) => NoWrap(size) && GoodReply(s, Needed(size), reply)
    case DoCalloc(count, size, reply) => NoWrap(count * size) && GoodReply(s, Needed(count * size), reply)
    case DoRealloc(p, size, reply) =>
      (p == 0 || Live(s, p)) && NoWrap(size) && GoodReply(s, Needed(size), reply)
    case DoFree(p) => p == 0 || Live(s, p)
    case DoStore(a, _) => exists c :: c in s.cells && !c.free && c.address + 32 <= a < End(c)
  }

  ghost predicate Steps(s: State, call: Call, after: State) {
    Allowed(s, call) &&
    match call
    case DoMalloc(size, reply) => Answers(size, reply) && after == Malloc(s, size, reply).0
    case DoCalloc(count, size, reply) => Answers(count * size, reply) && after == Calloc(s, count, size, reply).0
    case DoRealloc(p, size, reply) =>
      && Answers(size, reply) && (p != 0 ==> Find(s.cells, p - 32) < |s.cells|)
      && Realloc(s, p, size, reply).0 == Some(after)
    case DoFree(p) =>
      if p == 0 then after == s else Find(s.cells, p - 32) < |s.cells| && FreeAt(s, p) == Some(after)
    case DoStore(a, value) => after == s.(memory := s.memory[a := value])
  }

  /** Every call keeps the invariant. */
  lemma StepKeeps(s: State, call: Call, after: State)
    requires Inv(s) && Steps(s, call, after)
    ensures Inv(after)
  {
    hide Tiles, Apart, Pairs, Aligned, Malloc, Calloc, Needed, NoWrap, GoodReply;
    match call
    case DoMalloc(size, reply) => MallocKeeps(s, size, reply);
    case DoCalloc(count, size, reply) => CallocKeeps(s, count, size, reply);
    case DoRealloc(p, size, reply) =>
      if p == 0 {
        MallocKeeps(s, size, reply);
      } else if size == 0 {
        FreeKeeps(s, p);
      } else {
        var n :| LiveAt(s, p, n);
        ReallocKeeps(s, p, size, n, reply);
      }
    case DoFree(p) =>
      if p != 0 {
        FreeKeeps(s, p);
      }
    case DoStore(_, _) =>
  }

  /** A run: consecutive states related by calls, from the empty heap. */
  ghost predicate IsRun(states: seq<State>, calls: seq<Call>) {
    && |states| == |calls| + 1 && states[0] == State([], [], map[])
    && forall i :: 0 <= i < |calls| ==> StepAt(states, calls, i)
  }

  ghost predicate StepAt(states: seq<State>, calls: seq<Call>, i: nat) {
    i < |calls| && i + 1 < |states| && Steps(states[i], calls[i], states[i + 1])
  }

  /** In every state of every run the blocks tile the arenas exactly, are 16-aligned, and at most one
      pair of free blocks is adjacent in address. */
  lemma {:induction false} EveryRunKeeps(states: seq<State>, calls: seq<Call>, i: nat)
    requires IsRun(states, calls) && i < |states|
    ensures Inv(states[i]) && OnePairAtMost(states[i])
  {
    hide OnePairAtMost, Inv, Steps;
    if i == 0 {
      EmptyIsValid(states[0]);
    } else {
      EveryRunKeeps(states, calls, i - 1);
      assert StepAt(states, calls, i - 1);
      StepKeeps(states[i - 1], calls[i - 1], states[i]);
    }
    ValidHasOnePair(states[i]);
  }

  // ---------------------------------------------------------------------------------------------
  // Conservation, and the pair that does remain

  ghost function CellBytes(cells: seq<Cell>): (n: nat) {
    if cells == [] then 0 else 32 + cells[0].size + CellBytes(cells[1..])
  }

  ghost function ArenaBytes(arenas: seq<Arena>): (n: nat) {
    if arenas == [] then 0 else arenas[0].length + ArenaBytes(arenas[1..])
  }

  /** Headers and payloads together account for every mapped byte. */
  lemma {:induction false} BytesAreConserved(cells: seq<Cell>, at: nat, end: nat, rest: seq<Arena>)
    requires Tiles(cells, at, end, rest) && at <= end
    ensures CellBytes(cells) == end - at + ArenaBytes(rest)
    decreases |cells| + |rest|
  {
    if at == end {
      if rest != [] {
        BytesAreConserved(cells, rest[0].base, rest[0].base + rest[0].length, rest[1..]);
      }
    } else {
      BytesAreConserved(cells[1..], End(cells[0]), end, rest);
    }
  }

  /** Free blocks can touch after a call: freeing the middle of three merges the first two only. */
  lemma OnePairRemains(s: State)
    requires s.cells == [Cell(4_096, 16, true), Cell(4_144, 16, false), Cell(4_192, 16, true),
                         Cell(4_240, 16, false), Cell(4_288, 65_312, true)]
    ensures Find(s.cells, 4_144) < |s.cells| && FreeAt(s, 4_176).Some?
    ensures Pairs(s.cells) == 0 && Pairs(FreeAt(s, 4_176).value.cells) == 1 && Touching(FreeAt(s, 4_176).value, 0, 1)
  {
    var a, b, c, d, e := s.cells[0], s.cells[1], s.cells[2], s.cells[3], s.cells[4];
    assert Find(s.cells, 4_144) == 1;
    var marked := s.cells[1 := b.(free := true)];
    assert marked[2..] == [c, d, e] && [c, d, e][1..] == [d, e] && [d, e][1..] == [e];
    assert Coalesce([d, e]) == [d, e] && Coalesce([c, d, e]) == [c, d, e];
    var merged := Cell(4_096, 64, true);
    assert Coalesce(marked) == [merged] + [c, d, e];
    PairsCons(merged, [c, d, e]);
    PairsCons(c, [d, e]);
    PairsCons(d, [e]);
    PairsCons(b, [c, d, e]);
    PairsCons(a, [b, c, d, e]);
    assert [c] + [d, e] == [c, d, e] && [d] + [e] == [d, e] && [b] + [c, d, e] == [b, c, d, e];
    assert s.cells == [a] + [b, c, d, e];
  }

  /** Some run ends in `s`. */
  ghost predicate Reachable(s: State) {
    exists states, calls :: IsRun(states, calls) && states[|states| - 1] == s
  }

  lemma ReachableKeeps(s: State)
    requires Reachable(s)
    ensures Inv(s)
  {
    hide Inv, Steps;
    var states, calls :| IsRun(states, calls) && states[|states| - 1] == s;
    EveryRunKeeps(states, calls, |states| - 1);
  }

  lemma ReachStep(s: State, call: Call, after: State)
    requires Reachable(s) && Steps(s, call, after)
    ensures Reachable(after) && Inv(after)
  {
    hide Inv, Steps;
    var states, calls :| IsRun(states, calls) && states[|states| - 1] == s;
    var longer, more := states + [after], calls + [call];
    forall i | 0 <= i < |more| ensures StepAt(longer, more, i) {
      if i < |calls| {
        assert StepAt(states, calls, i);
      }
    }
    assert IsRun(longer, more) && longer[|longer| - 1] == after;
    ReachableKeeps(after);
  }

  lemma FourBlocks() returns (s: State)
    ensures Reachable(s) && Inv(s)
    ensures s.cells == [Cell(4_096, 16, false), Cell(4_144, 16, false), Cell(4_192, 16, false), Cell(4_240, 16, false),
                        Cell(4_288, 65_312, true)]
  {
    hide Inv, Steps;
    var arena := Arena(4_096, 65_536);
    var s0 := State([], [], map[]);
    assert IsRun([s0], []);
    var s1 := s0.(arenas := [arena], cells := [Cell(4_096, 16, false), Cell(4_144, 65_456, true)]);
    FirstTake(s0, s1, arena);
    ReachStep(s0, DoMalloc(16, Some(arena)), s1);
    var s2 := s1.(cells := [Cell(4_096, 16, false), Cell(4_144, 16, false), Cell(4_192, 65_408, true)]);
    LaterTake(s1, 1, s2);
    ReachStep(s1, DoMalloc(16, None), s2);
    var s3 := s1.(cells := [Cell(4_096, 16, false), Cell(4_144, 16, false), Cell(4_192, 16, false), Cell(4_240, 65_360, true)]);
    LaterTake(s2, 2, s3);
    ReachStep(s2, DoMalloc(16, None), s3);
    s := s1.(cells := [Cell(4_096, 16, false), Cell(4_144, 16, false), Cell(4_192, 16, false), Cell(4_240, 16, false),
                       Cell(4_288, 65_312, true)]);
    LaterTake(s3, 3, s);
    ReachStep(s3, DoMalloc(16, None), s);
  }

  /** A state with a touching pair is reached: four small blocks, then the first, the third and the
      second freed. */
  lemma OnePairIsReached() returns (s: State)
    ensures Reachable(s) && Pairs(s.cells) == 1 && Touching(s, 0, 1)
  {
    hide Inv, Steps, Reachable, FreeAt, Coalesce, Pairs;
    var s4 := FourBlocks();
    var s5 := s4.(cells := s4.cells[0 := Cell(4_096, 16, true)]);
    NoNeighboursFree(s5.cells);
    QuietFree(s4, 0, s5);
    ReachStep(s4, DoFree(4_128), s5);
    var s6 := s5.(cells := s5.cells[2 := Cell(4_192, 16, true)]);
    NoNeighboursFree(s6.cells);
    QuietFree(s5, 2, s6);
    ReachStep(s5, DoFree(4_224), s6);
    OnePairRemains(s6);
    s := FreeAt(s6, 4_176).value;
    LastFree(s6, s);
    ReachStep(s6, DoFree(4_176), s);
  }

  lemma LastFree(s: State, after: State)
    requires Inv(s) && Find(s.cells, 4_144) < |s.cells| && FreeAt(s, 4_176) == Some(after)
    requires 1 < |s.cells| && s.cells[1] == Cell(4_144, 16, false)
    ensures Steps(s, DoFree(4_176), after)
  {
    hide Tiles, Apart, Pairs, Aligned, Coalesce;
    assert LiveAt(s, 4_176, 16);
  }

  ghost predicate BothFree(cells: seq<Cell>, i: nat) {
    i + 1 < |cells| && cells[i].free && cells[i + 1].free
  }

  lemma {:induction false} NoNeighboursFree(cells: seq<Cell>)
    requires forall i: nat :: !BothFree(cells, i)
    ensures Pairs(cells) == 0
  {
    if 2 <= |cells| {
      assert !BothFree(cells, 0);
      forall i: nat ensures !BothFree(cells[1..], i) {
        assert !BothFree(cells, i + 1);
      }
      NoNeighboursFree(cells[1..]);
    }
  }

  lemma FirstTake(s: State, after: State, arena: Arena)
    requires s == State([], [], map[]) && arena == Arena(4_096, 65_536)
    requires after == State([Cell(4_096, 16, false), Cell(4_144, 65_456, true)], [arena], map[])
    ensures Steps(s, DoMalloc(16, Some(arena)), after)
  {
    assert Carve([Cell(4_096, 65_504, true)], 0, 16) == after.cells;
    assert Grow(s, arena).cells == [Cell(4_096, 65_504, true)] && Grow(s, arena).arenas == [arena];
  }

  lemma LaterTake(s: State, i: nat, after: State)
    requires Inv(s) && i == |s.cells| - 1 && s.cells[i].free && 80 <= s.cells[i].size
    requires forall k :: 0 <= k < i ==> !s.cells[k].free
    requires after == s.(cells := s.cells[..i] + [s.cells[i].(size := 16, free := false),
                                 Cell(s.cells[i].address + 48, s.cells[i].size - 48, true)])
    ensures Steps(s, DoMalloc(16, None), after)
  {
    hide Tiles, Apart, Pairs, Aligned;
    assert FirstFit(s.cells, 16) == i;
    assert Carve(s.cells, i, 16) == after.cells;
  }

  /** Freeing a block between live neighbours just marks it. */
  lemma QuietFree(s: State, i: nat, after: State)
    requires Inv(s) && i < |s.cells| && !s.cells[i].free && after == s.(cells := s.cells[i := s.cells[i].(free := true)])
    requires Pairs(after.cells) == 0
    ensures Steps(s, DoFree(s.cells[i].address + 32), after)
  {
    FindIs(s, i);
    NothingToMerge(after.cells);
    assert LiveAt(s, s.cells[i].address + 32, s.cells[i].size);
  }

  lemma {:induction false} NothingToMerge(cells: seq<Cell>)
    requires Pairs(cells) == 0
    ensures Coalesce(cells) == cells
  {
    if 2 <= |cells| {
      NothingToMerge(cells[1..]);
    }
  }
}
