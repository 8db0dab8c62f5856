/** The allocator as it runs: a linked list of headers changed in place. */
module Heap {
  import opened Bytes
  import opened HeapSpec
  import Runs = HeapRuns

  /** A block header at a fixed address. A pointer handed to a caller is the header it stands
      behind; its numeric value is `address + 32`. */
  class Block {
    const address: nat
    var size: nat
    var next: Block?
    var free: bool

    constructor (address: nat, size: nat, next: Block?)
      ensures this.address == address && this.size == size && this.next == next && free
    {
      this.address, this.size, this.next, free := address, size, next, true;
    }
  }

  class Allocator {
    var blocks: Block?
    var memory: map<nat, byte>
    ghost var list: seq<Block>
    ghost var arenas: seq<Arena>
    ghost var repr: set<Block>  // every header ever linked in

    ghost predicate LinkedAt(i: nat)
      reads this`list, list`next
    {
      i < |list| && list[i].next == if i + 1 < |list| then list[i + 1] else null
    }

    ghost predicate Linked()
      reads this`list, this`blocks, this`repr, list`next
    {
      && (forall i :: 0 <= i < |list| ==> list[i] in repr)
      && blocks == (if list == [] then null else list[0])
      && (forall i :: 0 <= i < |list| ==> LinkedAt(i))
      && NoDuplicates(list)
    }

    ghost function Cells(): (cells: seq<Cell>)
      reads this`list, list`size, list`free
    {
      CellsOf(list)
    }

    ghost function View(): (s: State)
      reads this, list
    {
      State(Cells(), arenas, memory)
    }

    constructor ()
      ensures Linked() && View() == State([], [], map[])
    {
      blocks, memory, list, arenas, repr := null, map[], [], [], {};
    }

    /** First fit: the first free block that is large enough, or null. */
    method Search(n: nat) returns (block: Block?, ghost i: nat)
      requires Linked()
      ensures i == FirstFit(Cells(), n)
      ensures block == if i < |list| then list[i] else null
    {
      block, i := blocks, 0;
      while block != null && !(block.free && block.size >= n)
        invariant i <= |list| && block == (if i < |list| then list[i] else null)
        invariant forall k :: 0 <= k < i ==> !(Cells()[k].free && n <= Cells()[k].size)
        decreases |list| - i
      {
        assert LinkedAt(i);
        block, i := block.next, i + 1;
      }
      FirstFitIs(Cells(), n, i);
    }

    /** Put a whole new arena at the head of the list, as one free block. */
    method NewArena(a: Arena) returns (block: Block)
      requires Linked() && 32 <= a.length
      modifies this`blocks, this`list, this`arenas, this`repr
      ensures Linked() && fresh(block) && list == [block] + old(list) && repr == old(repr) + {block}
      ensures View() == Runs.Grow(old(View()), a)
    {
      block := new Block(a.base, a.length - 32, blocks);
      ghost var before := list;
      forall k | 0 <= k < |before| ensures before[k].next == NextIn(before, k) {
        assert LinkedAt(k);
      }
      blocks, list, arenas, repr := block, [block] + list, [a] + arenas, repr + {block};
      Prepended(before, block);
      assert Cells() == [Cell(a.base, a.length - 32, true)] + old(Cells());
    }

    /** The links after putting `block` in front. */
    lemma Prepended(before: seq<Block>, block: Block)
      requires list == [block] + before && NoDuplicates(before) && block !in before && blocks == block
      requires block.next == (if before == [] then null else before[0]) && block in repr
      requires forall k :: 0 <= k < |before| ==> before[k].next == NextIn(before, k) && before[k] in repr
      ensures Linked()
    {
      forall i | 0 <= i < |list| ensures LinkedAt(i) {
        if 0 < i {
          assert list[i] == before[i - 1] && before[i - 1].next == NextIn(before, i - 1);
        }
      }
    }

    /** Link `tail` in behind `block`, which it already points past. */
    method InsertBehind(block: Block, tail: Block, ghost i: nat)
      requires Linked() && i < |list| && list[i] == block && tail !in list && tail.next == block.next
      modifies this`list, this`repr, block`next
      ensures Linked() && list == old(list)[..i + 1] + [tail] + old(list)[i + 1..] && repr == old(repr) + {tail}
    {
      ghost var before := list;
      forall k | 0 <= k < |before| ensures before[k].next == NextIn(before, k) {
        assert LinkedAt(k);
      }
      block.next := tail;
      list, repr := before[..i + 1] + [tail] + before[i + 1..], repr + {tail};
      Relink(before, i, tail);
    }

    /** Cut `block` down to `n` bytes when a usable tail remains. */
    method Split(block: Block, n: nat, ghost i: nat)
      requires Linked() && i < |list| && list[i] == block && n <= block.size && block.free
      modifies this`list, this`repr, block
      ensures Linked() && i < |list| && list[i] == block && block.free
      ensures fresh(repr - old(repr))
      ensures forall b :: b in old(list) ==> b in list
      ensures Cells() == Spliced(old(Cells()), i, n)
    {
      assert NoDuplicates(list);
      hide Linked;
      if block.size >= n + 32 + 32 {
        var tail := new Block(block.address + 32 + n, block.size - n - 32, block.next);
        InsertBehind(block, tail, i);
        block.size := n;
        SplicedCells(old(list), old(Cells()), i, n, tail);
      } else {
        NotSpliced(old(Cells()), i, n);
      }
    }

    /** The list and the state it stands for. */
    ghost predicate Valid()
      reads this, list
    {
      Linked() && Runs.Inv(View())
    }

    /** Cut the block and mark it allocated. */
    method Take(block: Block, n: nat, ghost i: nat)
      requires Linked() && i < |list| && list[i] == block && n <= block.size && block.free
      modifies this`list, this`repr, block
      ensures Linked() && block in list && Cells() == Carve(old(Cells()), i, n)
      ensures fresh(repr - old(repr))
      ensures forall b :: b in old(list) ==> b in list
    {
      hide Linked, Halves;
      Split(block, n, i);
      LinkedIsSet();
      ghost var spliced := Cells();
      block.free := false;
      TakenCells(spliced, i);
      SplicedIsCarved(old(Cells()), i, n);
    }

    /** The first block that fits, or a fresh arena if the system grants one. */
    method Obtain(n: nat, reply: Option<Arena>) returns (block: Block?, ghost i: nat)
      requires Linked() && (reply.Some? ==> n + 32 <= reply.value.length)
      modifies this`blocks, this`list, this`arenas, this`repr
      ensures Linked() && (block != null ==> i < |list| && list[i] == block && block.free && n <= block.size)
      ensures fresh(repr - old(repr))
      ensures forall b :: b in old(list) ==> b in list
      ensures
        var fit := FirstFit(old(Cells()), n);
        if fit < |old(Cells())| then block != null && i == fit && View() == old(View())
        else if reply.None? then block == null && View() == old(View())
        else block != null && i == 0 && View() == Runs.Grow(old(View()), reply.value)
    {
      hide Linked;
      block, i := Search(n);
      if block == null && reply.Some? {
        block := NewArena(reply.value);
        i := 0;
        assert Cells()[0] == Cell(reply.value.base, reply.value.length - 32, true);
      }
    }

    /** `malloc`: null, or the header of a block that is now allocated. */
    method Malloc(size: nat, reply: Option<Arena>) returns (block: Block?)
      requires Linked() && Runs.Answers(size, reply)
      modifies this`blocks, this`list, this`arenas, this`repr, repr
      ensures Linked() && View() == Runs.Malloc(old(View()), size, reply).0
      ensures block == null <==> Runs.Malloc(old(View()), size, reply).1 == None
      ensures block != null ==> block in list && Runs.Malloc(old(View()), size, reply).1 == Some(block.address + 32)
      ensures fresh(repr - old(repr))
      ensures forall b :: b in old(list) ==> b in list
    {
      hide Linked, Carve, FirstFit, Needed, CellsOf;
      if size > WORD - 16 {
        return null;
      }
      var n := Needed(size);
      ghost var i;
      block, i := Obtain(n, reply);
      if block != null {
        LinkedNext(i);
        Take(block, n, i);
      }
    }

    lemma LinkedIsSet()
      requires Linked()
      ensures NoDuplicates(list)
    {
    }

    lemma TakenCells(before: seq<Cell>, i: nat)
      requires i < |list| == |before|
      requires forall k :: 0 <= k < |list| && k != i ==> before[k] == Cell(list[k].address, list[k].size, list[k].free)
      requires before[i].(free := false) == Cell(list[i].address, list[i].size, list[i].free)
      ensures Cells() == before[i := before[i].(free := false)]
    {
    }

    /** Drop the successor of `block` from the list. */
    method Unlink(block: Block, next: Block, ghost k: nat)
      requires Linked() && k + 1 < |list| && list[k] == block && list[k + 1] == next
      modifies this`list, block`next
      ensures Linked() && list == old(list)[..k + 1] + old(list)[k + 2..]
    {
      ghost var before := list;
      forall j | 0 <= j < |before| ensures before[j].next == NextIn(before, j) {
        assert LinkedAt(j);
      }
      block.next := next.next;
      list := before[..k + 1] + before[k + 2..];
      Unlinked(before, k);
    }

    /** The links after dropping position `k + 1`. */
    lemma Unlinked(before: seq<Block>, k: nat)
      requires k + 1 < |before| && NoDuplicates(before) && list == before[..k + 1] + before[k + 2..]
      requires forall j :: 0 <= j < |before| && j != k ==> before[j].next == NextIn(before, j)
      requires before[k].next == NextIn(before, k + 1) && blocks == before[0]
      requires forall j :: 0 <= j < |before| ==> before[j] in repr
      ensures Linked()
    {
      forall j | 0 <= j < |list| ensures list[j] == (if j <= k then before[j] else before[j + 1]) && LinkedAt(j) {
        if j < k {
          assert list[j] == before[j] && list[j + 1] == before[j + 1];
        }
      }
    }

    /** Merge `block` with its successor, dropping the successor from the list. */
    method Merge(block: Block, next: Block, ghost k: nat)
      requires Linked() && k + 1 < |list| && list[k] == block && list[k + 1] == next
      modifies this`list, block`size, block`next
      ensures Linked() && list == old(list)[..k + 1] + old(list)[k + 2..]
      ensures forall b :: b in old(list) && b != next ==> b in list
      ensures Cells() == old(Cells())[..k] + [Joined(old(Cells())[k], old(Cells())[k + 1])] + old(Cells())[k + 2..]
    {
      LinkedIsSet();
      hide Linked;
      Unlink(block, next, k);
      assert old(list) == old(list)[..k + 1] + [next] + old(list)[k + 2..];
      block.size := block.size + 32 + next.size;
      JoinedCells(old(list), old(Cells()), k);
    }

    lemma JoinedCells(before: seq<Block>, cells: seq<Cell>, k: nat)
      requires k + 1 < |before| == |cells| && list == before[..k + 1] + before[k + 2..]
      requires forall j :: 0 <= j < |before| && j != k ==> cells[j] == Cell(before[j].address, before[j].size, before[j].free)
      requires Joined(cells[k], cells[k + 1]) == Cell(before[k].address, before[k].size, before[k].free)
      ensures Cells() == cells[..k] + [Joined(cells[k], cells[k + 1])] + cells[k + 2..]
    {
      var target := cells[..k] + [Joined(cells[k], cells[k + 1])] + cells[k + 2..];
      forall j | 0 <= j < |list| ensures Cells()[j] == target[j] {
        assert list[j] == if j <= k then before[j] else before[j + 1];
      }
    }

    /** Settle one block of the pass: merge it with its successor if both are free and touch. */
    method PassStep(cursor: Block, ghost k: nat)
      requires Linked() && k < |list| && list[k] == cursor
      modifies this`list, cursor`size, cursor`next
      ensures Linked() && k < |list| <= |old(list)| && list[k] == cursor && Cells() == Settled(old(Cells()), k)
      ensures forall b :: b in list ==> b in old(list)
      ensures forall b :: b in old(list) && !b.free ==> b in list
    {
      hide Linked, LinkedAt, Joined, CellsOf;
      LinkedNext(k);
      if cursor.free && cursor.next != null && cursor.next.free && cursor.address + 32 + cursor.size == cursor.next.address {
        Merge(cursor, cursor.next, k);
      }
    }

    /** One coalescing pass over the whole list. */
    method CoalescePass()
      requires Linked()
      modifies this`list, repr`size, repr`next
      ensures Linked() && Cells() == Coalesce(old(Cells()))
      ensures forall b :: b in list ==> b in old(list)
      ensures forall b :: b in old(list) && !b.free ==> b in list
    {
      hide Linked, LinkedAt, Settled, CellsOf, Coalesce;
      var cursor := blocks;
      ghost var k: nat, start := 0, Cells();
      LinkedHead();
      assert start[..0] == [] && start[0..] == start;
      while cursor != null
        invariant Linked() && k <= |list| && cursor == (if k < |list| then list[k] else null)
        invariant Coalesce(start) == Cells()[..k] + Coalesce(Cells()[k..])
        invariant forall b :: b in list ==> b in old(list)
        invariant forall b :: b in old(list) && !b.free ==> b in list
        decreases |list| - k
      {
        LinkedNext(k);
        PassProgress(Cells(), k);
        PassStep(cursor, k);
        LinkedNext(k);
        cursor, k := cursor.next, k + 1;
      }
      assert Cells()[k..] == [] && Cells()[..k] == Cells();
      EmptyCoalesce();
    }

    lemma LinkedHead()
      requires Linked()
      ensures blocks == if list == [] then null else list[0]
    {
    }

    lemma LinkedNext(k: nat)
      requires Linked() && k < |list|
      ensures list[k].next == NextIn(list, k) && list[k] in repr
    {
      assert LinkedAt(k);
    }

    /** `free`: null is ignored, a block already free aborts, otherwise it is marked and the list
        coalesced. */
    method Free(block: Block?) returns (aborted: bool)
      requires Valid() && (block != null ==> block in list)
      modifies this`list, repr
      ensures Linked()
      ensures forall b :: b in old(list) && b != block && !old(b.free) ==> b in list
      ensures block == null ==> !aborted && View() == old(View())
      ensures block != null ==> Find(old(Cells()), block.address) < |old(Cells())|
      ensures block != null ==>
        match Runs.FreeAt(old(View()), block.address + 32)
        case None => aborted && View() == old(View())
        case Some(after) => !aborted && View() == after
    {
      hide Coalesce, Marked, Runs.Inv, Runs.FreeAt, Linked, LinkedAt, CellsOf, Find;
      if block == null {
        return false;
      }
      ghost var i :| 0 <= i < |list| && list[i] == block;
      ghost var start := View();
      FreeIs(start, i);
      LinkedIsSet();
      LinkedNext(i);
      if block.free {
        return true;
      }
      Release(block, i);
      return false;
    }

    /** Mark the block free and run the pass. */
    method Release(block: Block, ghost i: nat)
      requires Linked() && i < |list| && list[i] == block
      modifies this`list, repr
      ensures Linked() && Cells() == Coalesce(Marked(old(Cells()), i))
      ensures forall b :: b in old(list) && b != block && !old(b.free) ==> b in list
    {
      hide Coalesce, Linked, LinkedAt, CellsOf, Marked;
      LinkedNext(i);
      Mark(block, i);
      CoalescePass();
    }

    method Mark(block: Block, ghost i: nat)
      requires Linked() && i < |list| && list[i] == block
      modifies block`free
      ensures block.free && Linked() && Cells() == Marked(old(Cells()), i)
    {
      LinkedIsSet();
      ghost var cells := Cells();
      block.free := true;
    }

    /** `sapote_allocation_size` of a listed block. */
    method AllocationSize(block: Block) returns (n: nat)
      ensures n == if block.free then 0 else block.size
    {
      n := if block.free then 0 else block.size;
    }

    /** `calloc`: `malloc` of the product, zeroed. */
    method Calloc(count: nat, size: nat, reply: Option<Arena>) returns (block: Block?)
      requires Linked() && Runs.Answers(count * size, reply)
      modifies this, repr
      ensures Linked() && View() == Runs.Calloc(old(View()), count, size, reply).0
      ensures block == null <==> Runs.Calloc(old(View()), count, size, reply).1 == None
      ensures block != null ==> block in list && Runs.Calloc(old(View()), count, size, reply).1 == Some(block.address + 32)
    {
      hide Linked, Runs.Malloc, Runs.Answers, Needed;
      if size != 0 && count > (WORD - 1) / size {
        return null;
      }
      block := Malloc(count * size, reply);
      if block != null {
        memory := Runs.Fill(memory, block.address + 32, count * size);
      }
    }

    /** `realloc`: keep, or move to a new block and free the old one. */
    method Realloc(block: Block?, size: nat, reply: Option<Arena>) returns (result: Block?, aborted: bool)
      requires Valid() && (block != null ==> block in list && !block.free)
      requires Runs.NoWrap(size) && Runs.GoodReply(View(), Needed(size), reply)
      modifies this, repr
      ensures Linked() && Runs.Answers(size, reply)
      ensures block != null ==> Find(old(Cells()), block.address) < |old(Cells())|
      ensures
        var (after, q) := Runs.Realloc(old(View()), if block == null then 0 else block.address + 32, size, reply);
        && after == Some(View()) && !aborted
        && (result == null <==> q == None) && (result != null ==> result in list && q == Some(result.address + 32))
    {
      hide Linked, Runs.Malloc, Runs.Inv, Needed, Runs.FreeAt, Runs.GoodReply, Runs.NoWrap, Runs.Answers, Runs.Move, CellsOf, Find;
      ghost var start := View();
      Runs.GoodReplyAnswers(start, size, reply);
      if block == null {
        result := Malloc(size, reply);
        return result, false;
      }
      ghost var i :| 0 <= i < |list| && list[i] == block;
      Runs.LiveFrees(start, i);
      Runs.FindIs(start, i);
      if size == 0 {
        aborted := Free(block);
        return null, aborted;
      }
      var oldSize := AllocationSize(block);
      if oldSize >= size {
        return block, false;
      }
      result, aborted := Move(block, oldSize, size, reply, i);
    }

    method Move(block: Block, oldSize: nat, size: nat, reply: Option<Arena>, ghost i: nat)
      returns (result: Block?, aborted: bool)
      requires Valid() && i < |list| && list[i] == block && !block.free && block.size == oldSize < size
      requires Runs.NoWrap(size) && Runs.GoodReply(View(), Needed(size), reply)
      modifies this, repr
      ensures Linked() && Runs.Answers(size, reply)
      ensures
        var (after, q) := Runs.Move(old(View()), block.address + 32, oldSize, size, reply);
        && after == Some(View()) && !aborted
        && (result == null <==> q == None) && (result != null ==> result in list && q == Some(result.address + 32))
    {
      hide Linked, LinkedAt, Runs.Malloc, Runs.Inv, Needed, Runs.FreeAt, Runs.GoodReply, Runs.NoWrap, Runs.Answers, Runs.Copy, CellsOf, Find;
      ghost var start := View();
      Runs.GoodReplyAnswers(start, size, reply);
      assert start.cells[i] == Cell(block.address, oldSize, false);
      result := Malloc(size, reply);
      if result == null {
        Runs.MallocKeeps(start, size, reply);
        return null, false;
      }
      Moving(start, i, block, result, oldSize, size, reply);
      aborted := CopyAndFree(block, result, oldSize);
    }

    method CopyAndFree(block: Block, result: Block, n: nat) returns (aborted: bool)
      requires Valid() && block in list && result in list && block != result && !block.free && !result.free
      modifies this, repr
      ensures Linked() && result in list && !aborted
      ensures
        var copied := old(View()).(memory := Runs.Copy(old(memory), block.address + 32, result.address + 32, n));
        Find(copied.cells, block.address) < |copied.cells| && Runs.FreeAt(copied, block.address + 32) == Some(View())
    {
      hide Linked, LinkedAt, Runs.Inv, Runs.FreeAt, Runs.Copy, CellsOf, Find, Coalesce;
      ghost var i :| 0 <= i < |list| && list[i] == block;
      ghost var start := View();
      memory := Runs.Copy(memory, block.address + 32, result.address + 32, n);
      Runs.MemoryKeepsInv(start, memory);
      ghost var copied := start.(memory := memory);
      LinkedStays(start, copied);
      FreeIs(copied, i);
      aborted := Free(block);
    }

    lemma LinkedStays(start: State, copied: State)
      requires View() == copied && Runs.Inv(copied) && Linked()
      ensures Valid()
    {
    }

    /** After the new block is taken, the heap is valid and the old block is still live. */
    lemma Moving(
      start: State, i: nat, block: Block, result: Block, n: nat, size: nat, reply: Option<Arena>)
      requires Runs.Inv(start) && i < |start.cells| && start.cells[i] == Cell(block.address, n, false)
      requires Runs.NoWrap(size) && Runs.GoodReply(start, Needed(size), reply) && Runs.Answers(size, reply)
      requires Linked() && block in list && result in list
      requires Runs.Malloc(start, size, reply) == (View(), Some(result.address + 32))
      ensures Valid() && !block.free && !result.free && block != result
    {
      hide Linked, LinkedAt, Runs.Inv, Runs.Malloc, Needed, Runs.GoodReply, Runs.NoWrap, Runs.Answers, CellsOf;
      Runs.MallocKeeps(start, size, reply);
      assert start.cells[i] in start.cells;
      StaysLive(block, n);
      var m :| size <= m && Runs.LiveAt(View(), result.address + 32, m);
      StaysLive(result, m);
    }

    lemma StaysLive(block: Block, n: nat)
      requires Runs.Inv(View()) && block in list && Cell(block.address, n, false) in Cells()
      ensures !block.free && block.size == n
    {
      hide Runs.Inv, CellsOf;
      var j :| 0 <= j < |list| && list[j] == block;
      var k :| 0 <= k < |Cells()| && Cells()[k] == Cell(block.address, n, false);
      Runs.FindIs(View(), j);
      Runs.FindIs(View(), k);
    }

    lemma SplicedCells(before: seq<Block>, cells: seq<Cell>, i: nat, n: nat, tail: Block)
      requires i < |before| && NoDuplicates(before) && list == before[..i + 1] + [tail] + before[i + 1..]
      requires |cells| == |before| && n + 64 <= cells[i].size
      requires forall k :: 0 <= k < |before| && k != i ==>
        cells[k] == Cell(before[k].address, before[k].size, before[k].free)
      requires cells[i].(size := n) == Cell(before[i].address, before[i].size, before[i].free)
      requires tail.address == cells[i].address + 32 + n && tail.size == cells[i].size - n - 32 && tail.free
      ensures Cells() == Spliced(cells, i, n)
    {
      var target := Spliced(cells, i, n);
      forall k | 0 <= k < |list| ensures Cells()[k] == target[k] {
        if k <= i {
          assert list[k] == before[k];
        } else if i + 1 < k {
          assert list[k] == before[k - 1];
        }
      }
    }

    /** The links after inserting `tail` behind position `i`. */
    lemma Relink(before: seq<Block>, i: nat, tail: Block)
      requires i < |before| && tail !in before && NoDuplicates(before)
      requires list == before[..i + 1] + [tail] + before[i + 1..]
      requires forall k :: 0 <= k < |before| && k != i ==> before[k].next == NextIn(before, k)
      requires before[i].next == tail && tail.next == NextIn(before, i)
      requires blocks == before[0] && tail in repr && forall k :: 0 <= k < |before| ==> before[k] in repr
      ensures Linked()
    {
      forall k | 0 <= k < |list| ensures LinkedAt(k) {
        if k <= i {
          assert list[k] == before[k];
        } else if i + 1 < k {
          assert list[k] == before[k - 1];
        }
      }
    }
  }

  function Spliced(cells: seq<Cell>, i: nat, n: nat): (r: seq<Cell>)
    requires i < |cells| && n <= cells[i].size
  {
    cells[..i] + Halves(cells[i], n) + cells[i + 1..]
  }

  function Marked(cells: seq<Cell>, i: nat): (r: seq<Cell>)
    requires i < |cells|
  {
    cells[i := cells[i].(free := true)]
  }

  lemma FreeIs(s: State, i: nat)
    requires Runs.Inv(s) && i < |s.cells|
    ensures Find(s.cells, s.cells[i].address) < |s.cells|
    ensures Runs.FreeAt(s, s.cells[i].address + 32) ==
      if s.cells[i].free then None else Some(s.(cells := Coalesce(Marked(s.cells, i))))
  {
    hide Runs.Inv, Coalesce;
    Runs.FindIs(s, i);
  }

  function Joined(a: Cell, b: Cell): (c: Cell) {
    a.(size := a.size + 32 + b.size)
  }

  /** One step of the pass: the cell at `k` is settled, merged or not. */
  lemma CoalesceStep(cells: seq<Cell>, k: nat)
    requires k < |cells|
    ensures
      if k + 1 < |cells| && Mergeable(cells[k], cells[k + 1]) then
        Coalesce(cells[k..]) == [Joined(cells[k], cells[k + 1])] + Coalesce(cells[k + 2..])
      else Coalesce(cells[k..]) == [cells[k]] + Coalesce(cells[k + 1..])
    ensures !(k + 1 < |cells| && Mergeable(cells[k], cells[k + 1])) ==>
      cells[..k] + Coalesce(cells[k..]) == cells[..k + 1] + Coalesce(cells[k + 1..])
  {
    var tail := cells[k..];
    assert tail[1..] == cells[k + 1..];
    if k + 1 < |cells| {
      assert tail[2..] == cells[k + 2..];
    } else {
      assert tail == [cells[k]] && cells[k + 1..] == [];
    }
  }

  /** The list after the cell at `k` has been settled. */
  function Settled(cells: seq<Cell>, k: nat): (r: seq<Cell>)
    requires k < |cells|
    ensures k < |r|
  {
    if k + 1 < |cells| && Mergeable(cells[k], cells[k + 1]) then
      cells[..k] + [Joined(cells[k], cells[k + 1])] + cells[k + 2..]
    else cells
  }

  lemma PassProgress(cells: seq<Cell>, k: nat)
    requires k < |cells|
    ensures cells[..k] + Coalesce(cells[k..]) == Settled(cells, k)[..k + 1] + Coalesce(Settled(cells, k)[k + 1..])
  {
    CoalesceStep(cells, k);
    if k + 1 < |cells| && Mergeable(cells[k], cells[k + 1]) {
      var merged := Settled(cells, k);
      assert merged[k + 1..] == cells[k + 2..] && merged[..k + 1] == cells[..k] + [Joined(cells[k], cells[k + 1])];
    }
  }

  lemma EmptyCoalesce()
    ensures Coalesce([]) == []
  {
  }

  lemma SplicedIsCarved(cells: seq<Cell>, i: nat, n: nat)
    requires i < |cells| && n <= cells[i].size && cells[i].free
    ensures |Spliced(cells, i, n)| > i
    ensures Spliced(cells, i, n)[i := Spliced(cells, i, n)[i].(free := false)] == Carve(cells, i, n)
  {
  }

  /** A free cell of `n` bytes and, when one remains, its tail. */
  function Halves(c: Cell, n: nat): (r: seq<Cell>)
    requires n <= c.size
  {
    if n + 64 <= c.size then [c.(size := n), Cell(c.address + 32 + n, c.size - n - 32, true)] else [c]
  }

  lemma NotSpliced(cells: seq<Cell>, i: nat, n: nat)
    requires i < |cells| && n <= cells[i].size < n + 64
    ensures Spliced(cells, i, n) == cells
  {
  }

  ghost function CellsOf(list: seq<Block>): (cells: seq<Cell>)
    reads list`size, list`free
    ensures |cells| == |list|
    ensures forall i :: 0 <= i < |list| ==> cells[i] == Cell(list[i].address, list[i].size, list[i].free)
  {
    if list == [] then [] else [Cell(list[0].address, list[0].size, list[0].free)] + CellsOf(list[1..])
  }

  ghost function NextIn(list: seq<Block>, k: nat): (b: Block?) {
    if k + 1 < |list| then list[k + 1] else null
  }

  lemma FirstFitIs(cells: seq<Cell>, n: nat, i: nat)
    requires i <= |cells| && forall k :: 0 <= k < i ==> !(cells[k].free && n <= cells[k].size)
    requires i < |cells| ==> cells[i].free && n <= cells[i].size
    ensures FirstFit(cells, n) == i
  {
  }
}
