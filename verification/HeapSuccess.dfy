/** When the allocator's calls succeed, and what else they leave as it was. */
module HeapSuccess {
  import opened Bytes
  import opened HeapSpec
  import opened HeapRuns

  /** The least multiple of 16 that holds the request, and at least one byte. */
  lemma NeededIs(size: nat)
    ensures Needed(size) % 16 == 0 && size <= Needed(size) && 16 <= Needed(size)
    ensures forall n :: n % 16 == 0 && size <= n && 1 <= n ==> Needed(size) <= n
  {
  }

  /** The system is asked for a block and its header, and for 64 KiB at least. */
  lemma ArenaRequestIs(minimum: nat)
    requires minimum + 32 < WORD
    ensures minimum + 32 <= ArenaRequest(minimum) && 65_536 <= ArenaRequest(minimum)
    ensures ArenaRequest(minimum) == minimum + 32 || ArenaRequest(minimum) == 65_536
  {
  }

  /** Every aligned range away from the other arenas that is long enough is a good answer. */
  lemma LongEnoughIsGood(s: State, minimum: nat, a: Arena)
    requires 4_096 <= a.base && a.base % 16 == 0 && a.length % 16 == 0 && a.base + a.length <= 0x1_0000_0000_0000_0000
    requires minimum + 32 <= a.length && 65_536 <= a.length
    requires forall x :: x in s.arenas ==> a.base + a.length < x.base || x.base + x.length < a.base
    ensures GoodReply(s, minimum, Some(a)) && GoodReply(s, minimum, None)
  {
  }

  ghost predicate Fits(s: State, n: nat) {
    exists c :: c in s.cells && c.free && n <= c.size
  }

  lemma FirstFitIff(s: State, n: nat)
    ensures Fits(s, n) <==> FirstFit(s.cells, n) < |s.cells|
  {
    var i := FirstFit(s.cells, n);
    if Fits(s, n) {
      var c :| c in s.cells && c.free && n <= c.size;
      var k :| 0 <= k < |s.cells| && s.cells[k] == c;
    }
    if i < |s.cells| {
      assert s.cells[i] in s.cells;
    }
  }

  /** The first block of the list that is free and long enough. */
  ghost predicate IsFirstFit(s: State, n: nat, i: nat) {
    && i < |s.cells| && s.cells[i].free && n <= s.cells[i].size
    && forall k :: 0 <= k < i ==> !(s.cells[k].free && n <= s.cells[k].size)
  }

  /** Cutting a block wastes less than 64 bytes, and what it splits off has 32 bytes at least. */
  lemma TakeIsTight(s: State, i: nat, n: nat)
    requires i < |s.cells| && s.cells[i].free && n <= s.cells[i].size
    ensures
      var (after, p) := Take(s, i, n);
      && p == Some(s.cells[i].address + 32) && after.memory == s.memory && after.arenas == s.arenas
      && (exists m :: n <= m < n + 64 && LiveAt(after, p.value, m))
      && (forall c :: c in after.cells && c.free && c !in s.cells ==> 32 <= c.size)
  {
    hide Carve;
    var after := Take(s, i, n).0;
    var cut := Cut(s.cells[i], n);
    CarveParts(s.cells, i, n);
    CutPieces(s.cells[i], n);
    assert LiveAt(after, s.cells[i].address + 32, cut[0].size);
    assert forall c :: c in cut ==> c == cut[0] || c == cut[|cut| - 1];
  }

  /** `malloc` succeeds exactly when the rounded size does not overflow and a free block fits or the
      system grants an arena. It takes the first block that fits and asks for an arena only if none
      does; it wastes less than 64 bytes, and what it splits off has 32 bytes at least. */
  lemma MallocSucceedsIff(s: State, size: nat, reply: Option<Arena>)
    requires Inv(s) && NoWrap(size) && GoodReply(s, Needed(size), reply)
    ensures Answers(size, reply)
    ensures
      var (after, p) := Malloc(s, size, reply);
      && (p.Some? <==> size <= 0xFFFF_FFFF_FFFF_FFF0 && (Fits(s, Needed(size)) || reply.Some?))
      && (p.Some? && Fits(s, Needed(size)) ==>
            after.arenas == s.arenas && exists i: nat :: IsFirstFit(s, Needed(size), i) && p.value == s.cells[i].address + 32)
      && (p.Some? && !Fits(s, Needed(size)) ==>
            after.arenas == [reply.value] + s.arenas && p.value == reply.value.base + 32)
      && (p.Some? ==>
            && (exists m :: Needed(size) <= m < Needed(size) + 64 && LiveAt(after, p.value, m))
            && (forall c :: c in after.cells && c.free && c !in s.cells ==> 32 <= c.size))
  {
    hide Inv, Needed, Take, Fits, GoodReply;
    GoodReplyAnswers(s, size, reply);
    var n := Needed(size);
    FirstFitIff(s, n);
    if size <= WORD - 16 {
      var i := FirstFit(s.cells, n);
      if i < |s.cells| {
        TakeIsTight(s, i, n);
        assert IsFirstFit(s, n, i);
      } else if reply.Some? {
        TakeIsTight(Grow(s, reply.value), 0, n);
        GrownIsTight(s, reply.value, n);
      }
    }
  }

  /** The arena's own block is no longer free once it has been cut. */
  lemma GrownIsTight(s: State, a: Arena, n: nat)
    requires 32 + n <= a.length
    ensures
      var g := Grow(s, a);
      && g.cells[0] == Cell(a.base, a.length - 32, true) && n <= g.cells[0].size
      && g.arenas == [a] + s.arenas && g.memory == s.memory
      && (forall c :: c in Take(g, 0, n).0.cells && c.free && c !in s.cells ==> 32 <= c.size)
  {
    var g := Grow(s, a);
    var cut := Cut(g.cells[0], n);
    assert Carve(g.cells, 0, n) == cut + s.cells by {
      assert g.cells[..0] == [] && g.cells[1..] == s.cells;
    }
    assert forall c :: c in cut ==> c == cut[0] || c == cut[|cut| - 1];
  }

  lemma ProductFitsIff(count: nat, size: nat)
    ensures size != 0 && count > (WORD - 1) / size <==> count * size >= WORD
  {
    if size != 0 {
      var q := (WORD - 1) / size;
      QuotientIff(WORD - 1, size, q);
      if count <= q {
        MulOrder(count, q, size);
      } else {
        MulOrder(q + 1, count, size);
        assert (q + 1) * size == q * size + size;
      }
    }
  }

  /** `calloc` succeeds exactly when the product does not overflow and `malloc` of it succeeds. */
  lemma CallocSucceedsIff(s: State, count: nat, size: nat, reply: Option<Arena>)
    requires Inv(s) && NoWrap(count * size) && GoodReply(s, Needed(count * size), reply)
    ensures Answers(count * size, reply)
    ensures Calloc(s, count, size, reply).1.Some? <==>
      count * size <= 0xFFFF_FFFF_FFFF_FFF0 && (Fits(s, Needed(count * size)) || reply.Some?)
    ensures Calloc(s, count, size, reply).1.Some? ==>
      Calloc(s, count, size, reply).1 == Malloc(s, count * size, reply).1
  {
    hide Inv, Needed, Malloc, Fits, GoodReply, NoWrap, Answers, Fill;
    MallocSucceedsIff(s, count * size, reply);
    ProductFitsIff(count, size);
  }

  /** `realloc` of a live block succeeds exactly when the block is long enough already, and then nothing
      changes, or a new one can be had, and then the old one is freed. Of null it is `malloc`; to size
      zero it is `free`. */
  lemma ReallocSucceedsIff(s: State, p: nat, size: nat, n: nat, reply: Option<Arena>)
    requires Inv(s) && LiveAt(s, p, n) && NoWrap(size) && GoodReply(s, Needed(size), reply)
    ensures Answers(size, reply) && Find(s.cells, p - 32) < |s.cells|
    ensures
      var (after, q) := Realloc(s, p, size, reply);
      && (0 < size ==> (q.Some? <==> size <= n || (size <= 0xFFFF_FFFF_FFFF_FFF0 && (Fits(s, Needed(size)) || reply.Some?))))
      && (0 < size <= n ==> after == Some(s) && q == Some(p))
      && (n < size && q.Some? ==> after.Some? && q.value != p && forall m :: !LiveAt(after.value, p, m))
      && (size == 0 ==> q == None && after == FreeAt(s, p))
    ensures
      var (kept, r) := Malloc(s, size, reply);
      Realloc(s, 0, size, reply) == (Some(kept), r)
  {
    hide Inv, Needed, Malloc, Fits, GoodReply, NoWrap, Answers, Copy, FreeAt;
    var cell := Cell(p - 32, n, false);
    var i :| 0 <= i < |s.cells| && s.cells[i] == cell;
    FindIs(s, i);
    MallocSucceedsIff(s, size, reply);
    if n < size {
      MoveSucceeds(s, p, size, n, reply);
    }
  }

  lemma MoveSucceeds(s: State, p: nat, size: nat, n: nat, reply: Option<Arena>)
    requires Inv(s) && LiveAt(s, p, n) && NoWrap(size) && GoodReply(s, Needed(size), reply) && Answers(size, reply) && n < size
    ensures
      var (after, q) := Move(s, p, n, size, reply);
      && (q.Some? <==> Malloc(s, size, reply).1.Some?)
      && (q.Some? ==> after.Some? && q.value != p && forall m :: !LiveAt(after.value, p, m))
  {
    hide Inv, Needed, Malloc, GoodReply, NoWrap, Answers, Copy, FreeAt, OthersKept, Contents, Find;
    MallocKeeps(s, size, reply);
    MoveKeeps(s, p, size, n, reply);
    var (middle, q) := Malloc(s, size, reply);
    if q.Some? {
      var copied := middle.(memory := Copy(middle.memory, p, q.value, n));
      MemoryKeepsInv(middle, copied.memory);
      FreeKeeps(copied, p);
    }
  }

  /** Freeing a block that is already free aborts, and only that. A granted free changes neither memory
      nor arenas. */
  lemma FreeAbortsIff(s: State, i: nat)
    requires Inv(s) && i < |s.cells|
    ensures Find(s.cells, s.cells[i].address) < |s.cells|
    ensures FreeAt(s, s.cells[i].address + 32).None? <==> s.cells[i].free
    ensures FreeAt(s, s.cells[i].address + 32).Some? ==>
      var after := FreeAt(s, s.cells[i].address + 32).value;
      after.memory == s.memory && after.arenas == s.arenas
  {
    hide Inv, Coalesce;
    FindIs(s, i);
  }

  /** What callers owe: live pointers or null, stores inside live blocks, requests that do not wrap and
      answers that are good. Every such call is a step. */
  lemma EveryCallSteps(s: State, call: Call) returns (after: State)
    requires Inv(s)
    requires
      match call
      case DoMalloc(size, reply) => NoWrap(size) && GoodReply(s, Needed(size), reply)
      case DoCalloc(count, size, reply) => NoWrap(count * size) && GoodReply(s, Needed(count * size), reply)
      case DoRealloc(p, size, reply) =>
        (p == 0 || exists n :: LiveAt(s, p, n)) && NoWrap(size) && GoodReply(s, Needed(size), reply)
      case DoFree(p) => p == 0 || exists n :: LiveAt(s, p, n)
      case DoStore(a, _) => exists c :: c in s.cells && !c.free && c.address + 32 <= a < End(c)
    ensures Steps(s, call, after) && Inv(after)
  {
    hide Inv, Needed, Malloc, Calloc, GoodReply, NoWrap, Answers, FreeAt, Move;
    match call
    case DoMalloc(size, reply) =>
      MallocKeeps(s, size, reply);
      after := Malloc(s, size, reply).0;
    case DoCalloc(count, size, reply) =>
      CallocKeeps(s, count, size, reply);
      after := Calloc(s, count, size, reply).0;
    case DoRealloc(p, size, reply) =>
      MallocKeeps(s, size, reply);
      if p == 0 {
        after := Malloc(s, size, reply).0;
      } else {
        var n :| LiveAt(s, p, n);
        after := ReallocSteps(s, p, size, n, reply);
      }
    case DoFree(p) =>
      if p == 0 {
        after := s;
      } else {
        var n :| LiveAt(s, p, n);
        after := FreeSteps(s, p, n);
      }
    case DoStore(a, value) =>
      after := s.(memory := s.memory[a := value]);
      MemoryKeepsInv(s, after.memory);
  }

  lemma FreeSteps(s: State, p: nat, n: nat) returns (after: State)
    requires Inv(s) && LiveAt(s, p, n)
    ensures Find(s.cells, p - 32) < |s.cells| && FreeAt(s, p) == Some(after) && Inv(after)
  {
    hide Inv, FreeAt;
    var i :| 0 <= i < |s.cells| && s.cells[i] == Cell(p - 32, n, false);
    FreeAbortsIff(s, i);
    FreeKeeps(s, p);
    after := FreeAt(s, p).value;
  }

  lemma ReallocSteps(s: State, p: nat, size: nat, n: nat, reply: Option<Arena>) returns (after: State)
    requires Inv(s) && LiveAt(s, p, n) && NoWrap(size) && GoodReply(s, Needed(size), reply) && Answers(size, reply)
    ensures Find(s.cells, p - 32) < |s.cells| && Realloc(s, p, size, reply).0 == Some(after) && Inv(after)
  {
    hide Inv, FreeAt, Move, Needed, NoWrap, GoodReply, Answers, OthersKept, Contents;
    var freed := FreeSteps(s, p, n);
    if size == 0 {
      after := freed;
    } else {
      ReallocKeeps(s, p, size, n, reply);
      after := Realloc(s, p, size, reply).0.value;
    }
  }
}
