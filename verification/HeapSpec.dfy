/** The user-space allocator on values: its block list, arenas and memory, and every call on them. */
module HeapSpec {
  import opened Bytes

  const WORD := 0x1_0000_0000_0000_0000  // one past SIZE_MAX
  const ARENA_BYTES := 65_536

  /** A block header: where it stands, the payload bytes behind it, and whether they are free. */
  datatype Cell = Cell(address: nat, size: nat, free: bool)

  /** A mapped address range. */
  datatype Arena = Arena(base: nat, length: nat)

  datatype State = State(cells: seq<Cell>, arenas: seq<Arena>, memory: map<nat, byte>)

  /** Headers take 32 bytes. */
  function End(c: Cell): (a: nat) {
    c.address + 32 + c.size
  }

  function AlignSize(n: nat): (r: nat)
    ensures n <= r < n + 16 && r % 16 == 0
  {
    (n + 15) / 16 * 16
  }

  /** What a request is rounded to. */
  function Needed(size: nat): (n: nat) {
    AlignSize(if size == 0 then 1 else size)
  }

  /** Bytes asked of the system for a block of `minimum` bytes, in 64-bit arithmetic. */
  function ArenaRequest(minimum: nat): (n: nat) {
    var length := (minimum + 32) % WORD;
    if length < ARENA_BYTES then ARENA_BYTES else length
  }

  // ---------------------------------------------------------------------------------------------
  // List operations

  /** Index of the first free cell of at least `n` bytes, or the list's length. */
  function FirstFit(cells: seq<Cell>, n: nat): (i: nat)
    ensures i <= |cells|
    ensures i < |cells| ==> cells[i].free && n <= cells[i].size
    ensures forall k :: 0 <= k < i ==> !(cells[k].free && n <= cells[k].size)
  {
    if cells == [] || (cells[0].free && n <= cells[0].size) then 0 else 1 + FirstFit(cells[1..], n)
  }

  /** A cell cut to `n` bytes: allocated, with a free tail when at least 32 bytes would remain. */
  function Cut(c: Cell, n: nat): (r: seq<Cell>)
    requires n <= c.size
  {
    if n + 64 <= c.size then [Cell(c.address, n, false), Cell(c.address + 32 + n, c.size - n - 32, true)]
    else [c.(free := false)]
  }

  function Carve(cells: seq<Cell>, i: nat, n: nat): (r: seq<Cell>)
    requires i < |cells| && n <= cells[i].size
  {
    cells[..i] + Cut(cells[i], n) + cells[i + 1..]
  }

  predicate Mergeable(a: Cell, b: Cell) {
    a.free && b.free && End(a) == b.address
  }

  /** One coalescing pass: a merged cell is stepped past, not merged again. */
  function Coalesce(cells: seq<Cell>): (r: seq<Cell>) {
    if |cells| < 2 then cells
    else if Mergeable(cells[0], cells[1]) then
      [Cell(cells[0].address, cells[0].size + 32 + cells[1].size, true)] + Coalesce(cells[2..])
    else [cells[0]] + Coalesce(cells[1..])
  }

  function Find(cells: seq<Cell>, address: int): (i: nat)
    ensures i <= |cells|
    ensures i < |cells| ==> cells[i].address == address
    ensures forall k :: 0 <= k < i ==> cells[k].address != address
  {
    if cells == [] || cells[0].address == address then 0 else 1 + Find(cells[1..], address)
  }

  /** Pairs of free cells that touch. */
  function Pairs(cells: seq<Cell>): (n: nat) {
    if |cells| < 2 then 0 else (if Mergeable(cells[0], cells[1]) then 1 else 0) + Pairs(cells[1..])
  }

  // ---------------------------------------------------------------------------------------------
  // Coalescing halves the touching pairs

  lemma CoalesceHead(cells: seq<Cell>)
    requires cells != []
    ensures Coalesce(cells) != []
    ensures Coalesce(cells)[0].address == cells[0].address && Coalesce(cells)[0].free == cells[0].free
  {
  }

  /** One pass at least halves the number of touching free pairs. */
  lemma {:induction false} CoalesceHalves(cells: seq<Cell>)
    ensures 2 * Pairs(Coalesce(cells)) <= Pairs(cells)
  {
    if 2 <= |cells| {
      var a, b := cells[0], cells[1];
      if Mergeable(a, b) {
        var rest := cells[2..];
        assert cells[1..][1..] == rest;
        CoalesceHalves(rest);
        var merged := Cell(a.address, a.size + 32 + b.size, true);
        PairsCons(merged, Coalesce(rest));
        PairsCons(b, rest);
        assert [b] + rest == cells[1..];
        if rest != [] {
          CoalesceHead(rest);
        }
      } else {
        CoalesceHalves(cells[1..]);
        PairsCons(a, Coalesce(cells[1..]));
        CoalesceHead(cells[1..]);
      }
    }
  }

  lemma PairsCons(c: Cell, rest: seq<Cell>)
    ensures Pairs([c] + rest) == Pairs(rest) + (if rest != [] && Mergeable(c, rest[0]) then 1 else 0)
  {
    assert ([c] + rest)[1..] == rest;
  }

  ghost predicate TripleAt(cells: seq<Cell>, i: nat) {
    i + 2 < |cells| && Mergeable(cells[i], cells[i + 1]) && Mergeable(cells[i + 1], cells[i + 2])
  }

  /** A pass leaves no touching free pair exactly when no three free cells touched in a row. */
  lemma {:induction false} CoalesceIsCompleteIff(cells: seq<Cell>)
    ensures Pairs(Coalesce(cells)) == 0 <==> forall i: nat :: !TripleAt(cells, i)
  {
    if 2 <= |cells| {
      var a, b, tail := cells[0], cells[1], cells[1..];
      assert forall i: nat :: TripleAt(tail, i) ==> TripleAt(cells, i + 1);
      assert forall i: nat :: 0 < i && TripleAt(cells, i) ==> TripleAt(tail, i - 1);
      if Mergeable(a, b) {
        var rest := cells[2..];
        CoalesceIsCompleteIff(rest);
        PairsCons(Cell(a.address, a.size + 32 + b.size, true), Coalesce(rest));
        assert forall i: nat :: TripleAt(rest, i) ==> TripleAt(cells, i + 2);
        assert forall i: nat :: 1 < i && TripleAt(cells, i) ==> TripleAt(rest, i - 2);
        if rest != [] {
          CoalesceHead(rest);
          assert TripleAt(cells, 0) <==> Mergeable(b, rest[0]);
          assert TripleAt(cells, 1) ==> TripleAt(cells, 0);
        }
      } else {
        CoalesceIsCompleteIff(tail);
        PairsCons(a, Coalesce(tail));
        CoalesceHead(tail);
        assert !TripleAt(cells, 0);
      }
    }
  }

  /** Freeing one cell makes at most two new touching pairs. */
  lemma {:induction false} FreeingAddsTwo(cells: seq<Cell>, i: nat)
    requires i < |cells|
    ensures Pairs(cells[i := cells[i].(free := true)]) <= Pairs(cells) + 2
    ensures i == 0 ==> Pairs(cells[i := cells[i].(free := true)]) <= Pairs(cells) + 1
  {
    var freed := cells[i := cells[i].(free := true)];
    assert [freed[0]] + freed[1..] == freed && [cells[0]] + cells[1..] == cells;
    PairsCons(freed[0], freed[1..]);
    PairsCons(cells[0], cells[1..]);
    if i == 0 {
      assert freed[1..] == cells[1..];
    } else {
      assert freed[1..] == cells[1..][i - 1 := cells[i].(free := true)];
      FreeingAddsTwo(cells[1..], i - 1);
    }
  }

  /** Taking and cutting a free cell makes no new touching pair. */
  lemma {:induction false} CarvingAddsNone(cells: seq<Cell>, i: nat, n: nat)
    requires i < |cells| && n <= cells[i].size && cells[i].free
    ensures Pairs(Carve(cells, i, n)) <= Pairs(cells)
    ensures Carve(cells, i, n) != [] && Carve(cells, i, n)[0].address == cells[0].address
    ensures Carve(cells, i, n)[0].free ==> cells[0].free
  {
    var rest := cells[1..];
    assert [cells[0]] + rest == cells;
    PairsCons(cells[0], rest);
    if i == 0 {
      assert Carve(cells, 0, n) == Cut(cells[0], n) + rest;
      CuttingAddsNone(cells[0], rest, n);
    } else {
      CarvingAddsNone(rest, i - 1, n);
      CarveCons(cells, i, n);
      PairsCons(cells[0], Carve(rest, i - 1, n));
    }
  }

  lemma CarveCons(cells: seq<Cell>, i: nat, n: nat)
    requires 0 < i < |cells| && n <= cells[i].size
    ensures Carve(cells, i, n) == [cells[0]] + Carve(cells[1..], i - 1, n)
  {
    assert cells[..i] == [cells[0]] + cells[1..][..i - 1];
  }

  lemma CuttingAddsNone(c: Cell, rest: seq<Cell>, n: nat)
    requires n <= c.size && c.free
    ensures Pairs(Cut(c, n) + rest) <= Pairs([c] + rest)
  {
    var cut := Cut(c, n);
    PairsCons(c, rest);
    if |cut| == 2 {
      assert cut + rest == [cut[0]] + ([cut[1]] + rest);
      PairsCons(cut[0], [cut[1]] + rest);
      PairsCons(cut[1], rest);
    } else {
      PairsCons(cut[0], rest);
    }
  }
}
