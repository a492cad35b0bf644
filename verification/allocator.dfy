/** The block table as the program keeps it: one statically sized array of
    MAX_MEMORY_SIZE entries whose first totalBlocks entries are live, updated
    in place by every operation. Each operation is proved to compute the
    corresponding function on the live prefix (Splitting.Allocate,
    Coalescing.Release, Compaction.Compact) and to keep the table well
    formed. */
module Allocator {
  import opened Blocks
  import opened Placement
  import opened Splitting
  import opened Coalescing
  import opened Compaction

  class MemoryTable {
    var memoryBlocks: array<Block>
    var totalBlocks: int

    ghost predicate Valid()
      reads this, memoryBlocks
    {
      memoryBlocks.Length == MAX_MEMORY_SIZE &&
      0 < totalBlocks <= memoryBlocks.Length &&
      WellFormed(memoryBlocks[..totalBlocks])
    }

    /** The live prefix of the array. */
    ghost function Table(): seq<Block>
      reads this, memoryBlocks
      requires 0 <= totalBlocks <= memoryBlocks.Length
    {
      memoryBlocks[..totalBlocks]
    }

    /** The table at program start after initialize_memory(size): one hole
        covering [0, size). */
    constructor InitializeMemory(size: int)
      requires 0 < size <= MAX_MEMORY_SIZE
      ensures Valid() && fresh(memoryBlocks)
      ensures Table() == [Block(0, size, true, NO_PROCESS)]
    {
      var blocks := new Block[MAX_MEMORY_SIZE];
      blocks[0] := Block(0, size, true, NO_PROCESS);
      memoryBlocks := blocks;
      totalBlocks := 1;
    }

    /** The first-fit scan: stops at the first hole large enough. */
    method FindFirstFit(requestSize: int) returns (index: int)
      requires Valid()
      ensures index == FirstFit(Table(), requestSize)
    {
      var i := 0;
      while i < totalBlocks
        invariant 0 <= i <= totalBlocks
        invariant NoneFits(memoryBlocks[..i], requestSize)
      {
        if memoryBlocks[i].isFree && memoryBlocks[i].size >= requestSize {
          FirstFitUnique(Table(), requestSize, i);
          return i;
        }
        i := i + 1;
      }
      FirstFitUnique(Table(), requestSize, -1);
      return -1;
    }

    /** The best-fit scan: the current choice is replaced only by a strictly
        smaller hole; MAX_MEMORY_SIZE + 1 stands for "nothing chosen yet",
        which is larger than any block of the table. */
    method FindBestFit(requestSize: int) returns (index: int)
      requires Valid()
      ensures index == BestFit(Table(), requestSize)
    {
      BlocksInside(Table());
      index := -1;
      var bestFitSize := MAX_MEMORY_SIZE + 1;
      var i := 0;
      while i < totalBlocks
        invariant 0 <= i <= totalBlocks
        invariant index == BestFit(memoryBlocks[..i], requestSize)
        invariant bestFitSize == if index == -1 then MAX_MEMORY_SIZE + 1 else memoryBlocks[index].size
      {
        assert memoryBlocks[..i + 1][..i] == memoryBlocks[..i];
        var b := memoryBlocks[i];
        assert b == Table()[i];
        if b.isFree && b.size >= requestSize && b.size < bestFitSize {
          index := i;
          bestFitSize := b.size;
        }
        i := i + 1;
      }
    }

    /** The worst-fit scan: the current choice is replaced only by a strictly
        larger hole; -1 stands for "nothing chosen yet". */
    method FindWorstFit(requestSize: int) returns (index: int)
      requires Valid()
      ensures index == WorstFit(Table(), requestSize)
    {
      index := -1;
      var worstFitSize := -1;
      var i := 0;
      while i < totalBlocks
        invariant 0 <= i <= totalBlocks
        invariant index == WorstFit(memoryBlocks[..i], requestSize)
        invariant worstFitSize == if index == -1 then -1 else memoryBlocks[index].size
        invariant index != -1 ==> memoryBlocks[index].size >= 0
      {
        assert memoryBlocks[..i + 1][..i] == memoryBlocks[..i];
        var b := memoryBlocks[i];
        assert b == Table()[i];
        if b.isFree && b.size >= requestSize && b.size > worstFitSize {
          index := i;
          worstFitSize := b.size;
        }
        i := i + 1;
      }
    }

    /** Shifts the live entries from `at` on up one slot, leaving slot `at`
        to be overwritten; the caller counts the new entry. */
    method OpenGap(at: int)
      requires 0 < at <= totalBlocks < memoryBlocks.Length
      modifies memoryBlocks
      ensures forall k :: 0 <= k < at ==> memoryBlocks[k] == old(memoryBlocks[k])
      ensures forall k :: at < k <= totalBlocks ==> memoryBlocks[k] == old(memoryBlocks[k - 1])
    {
      var j := totalBlocks;
      while j > at
        invariant at <= j <= totalBlocks
        invariant forall k :: 0 <= k <= j ==> memoryBlocks[k] == old(memoryBlocks[k])
        invariant forall k :: j < k <= totalBlocks ==> memoryBlocks[k] == old(memoryBlocks[k - 1])
      {
        memoryBlocks[j] := memoryBlocks[j - 1];
        j := j - 1;
      }
    }

    /** Drops live entry `at` by shifting the entries after it down one slot. */
    method CloseGap(at: int)
      requires 0 <= at < totalBlocks <= memoryBlocks.Length
      modifies this`totalBlocks, memoryBlocks
      ensures totalBlocks == old(totalBlocks) - 1
      ensures memoryBlocks[..totalBlocks] == old(memoryBlocks[..totalBlocks])[..at] + old(memoryBlocks[..totalBlocks])[at + 1..]
    {
      ghost var r := memoryBlocks[..totalBlocks];
      ghost var dropped := r[..at] + r[at + 1..];
      var j := at;
      while j < totalBlocks - 1
        invariant totalBlocks == old(totalBlocks)
        invariant at <= j <= totalBlocks - 1
        invariant forall k :: 0 <= k < at ==> memoryBlocks[k] == r[k]
        invariant forall k :: at <= k < j ==> memoryBlocks[k] == r[k + 1]
        invariant forall k :: j <= k < totalBlocks ==> memoryBlocks[k] == r[k]
      {
        memoryBlocks[j] := memoryBlocks[j + 1];
        j := j + 1;
      }
      totalBlocks := totalBlocks - 1;
      assert forall k :: 0 <= k < totalBlocks ==> memoryBlocks[k] == dropped[k];
    }

    /** The strategy dispatch of allocate_memory: the index of the chosen
        hole, or -1, also for a strategy other than 'F', 'B' or 'W'. */
    method ChooseBlock(requestSize: int, strategy: char) returns (chosenBlockIndex: int)
      requires Valid()
      ensures chosenBlockIndex == Choose(Table(), requestSize, strategy)
    {
      chosenBlockIndex := -1;
      if strategy == 'F' {
        chosenBlockIndex := FindFirstFit(requestSize);
      } else if strategy == 'B' {
        chosenBlockIndex := FindBestFit(requestSize);
      } else if strategy == 'W' {
        chosenBlockIndex := FindWorstFit(requestSize);
      }
    }

    /** Gives live entry i to processID, splitting off the rest of a larger
        hole as a new entry right after it. */
    method PlaceAt(i: int, requestSize: int, processID: int)
      requires 0 <= i < totalBlocks <= memoryBlocks.Length
      requires memoryBlocks[i].size > requestSize ==> totalBlocks < memoryBlocks.Length
      modifies this`totalBlocks, memoryBlocks
      ensures 0 < totalBlocks <= memoryBlocks.Length
      ensures Table() == Place(old(Table()), i, requestSize, processID)
    {
      ghost var s := Table();
      var chosen := memoryBlocks[i];
      var given := Block(chosen.start, requestSize, false, processID);
      assert chosen == s[i];
      if chosen.size > requestSize {
        var rest := Block(chosen.start + requestSize, chosen.size - requestSize, true, NO_PROCESS);
        assert Place(s, i, requestSize, processID) == s[..i] + [given, rest] + s[i + 1..];
        OpenGap(i + 1);
        memoryBlocks[i + 1] := rest;
        totalBlocks := totalBlocks + 1;
        memoryBlocks[i] := given;
        SpliceTwo(Table(), s, i, given, rest);
      } else {
        assert Place(s, i, requestSize, processID) == s[i := given];
        memoryBlocks[i] := given;
      }
    }

    /** allocate_memory: the start of the block given to processID, or -1
        when no hole is large enough or the strategy is not 'F', 'B' or 'W'.
        A split writes the entry at index totalBlocks, which must exist. */
    method AllocateMemory(requestSize: int, processID: int, strategy: char) returns (address: int)
      requires Valid() && requestSize > 0
      requires Splits(Table(), requestSize, strategy) ==> totalBlocks < memoryBlocks.Length
      modifies this, memoryBlocks
      ensures Valid() && memoryBlocks == old(memoryBlocks)
      ensures Table() == Allocate(old(Table()), requestSize, processID, strategy).table
      ensures address == Allocate(old(Table()), requestSize, processID, strategy).result
    {
      ghost var s := Table();
      AllocatePreservesTable(s, requestSize, processID, strategy);
      var chosenBlockIndex := ChooseBlock(requestSize, strategy);
      if chosenBlockIndex == -1 {
        return -1;
      }
      address := memoryBlocks[chosenBlockIndex].start;
      PlaceAt(chosenBlockIndex, requestSize, processID);
    }

    /** The scan of release_memory: the first live entry that is allocated to
        processID, or -1. */
    method FindOwnedBlock(processID: int) returns (index: int)
      requires Valid()
      ensures index == OwnedBlock(Table(), processID)
    {
      var i := 0;
      while i < totalBlocks
        invariant 0 <= i <= totalBlocks
        invariant forall j :: 0 <= j < i ==> !Owns(memoryBlocks[j], processID)
      {
        if memoryBlocks[i].processID == processID && !memoryBlocks[i].isFree {
          OwnedBlockUnique(Table(), processID, i);
          return i;
        }
        i := i + 1;
      }
      OwnedBlockUnique(Table(), processID, -1);
      return -1;
    }

    /** Live entry k absorbs the entry after it, which is dropped. */
    method MergeNext(k: int)
      requires 0 <= k < totalBlocks - 1 && totalBlocks <= memoryBlocks.Length
      modifies this`totalBlocks, memoryBlocks
      ensures 0 <= totalBlocks <= memoryBlocks.Length
      ensures Table() == MergeWithNext(old(Table()), k)
    {
      ghost var s := Table();
      memoryBlocks[k] := memoryBlocks[k].(size := memoryBlocks[k].size + memoryBlocks[k + 1].size);
      ghost var t := Table();
      assert t == s[k := s[k].(size := s[k].size + s[k + 1].size)];
      CloseGap(k + 1);
      assert t[..k + 1] == s[..k] + [t[k]];
      assert t[k + 2..] == s[k + 2..];
    }

    /** Marks live entry i free, merges it into a free predecessor, and
        merges the result with a free successor. */
    method FreeAt(i: int)
      requires 0 <= i < totalBlocks <= memoryBlocks.Length
      modifies this`totalBlocks, memoryBlocks
      ensures 0 < totalBlocks <= memoryBlocks.Length
      ensures Table() == Free(old(Table()), i)
    {
      ghost var s := Table();
      memoryBlocks[i] := memoryBlocks[i].(isFree := true);
      ghost var t := Table();
      assert t == s[i := s[i].(isFree := true)];
      var j := i;
      if j > 0 && memoryBlocks[j - 1].isFree {
        MergeNext(j - 1);
        j := j - 1;
      }
      ghost var u := Table();
      if j < totalBlocks - 1 && memoryBlocks[j + 1].isFree {
        MergeNext(j);
      }
      assert Table() == Coalesce(u, j);
    }

    /** release_memory: frees the first block allocated to processID and
        merges it with the holes beside it; 0 on success, -1 when processID
        holds no block. */
    method ReleaseMemory(processID: int) returns (status: int)
      requires Valid()
      modifies this, memoryBlocks
      ensures Valid() && memoryBlocks == old(memoryBlocks)
      ensures Table() == Release(old(Table()), processID).table
      ensures status == Release(old(Table()), processID).result
    {
      ghost var s := Table();
      ReleasePreservesTable(s, processID);
      var i := FindOwnedBlock(processID);
      if i == -1 {
        return -1;
      }
      FreeAt(i);
      return 0;
    }

    /** Copies live entry i down to slot freeIndex and gives it the start
        where the entry below slot freeIndex ends (0 in slot 0). */
    method MoveDown(i: int, freeIndex: int)
      requires 0 <= freeIndex < i < memoryBlocks.Length
      modifies memoryBlocks
      ensures memoryBlocks[..freeIndex] == old(memoryBlocks[..freeIndex])
      ensures memoryBlocks[freeIndex] == old(memoryBlocks[i]).(start :=
        if freeIndex == 0 then 0 else EndOf(old(memoryBlocks[freeIndex - 1])))
      ensures forall k :: freeIndex < k < memoryBlocks.Length ==> memoryBlocks[k] == old(memoryBlocks[k])
    {
      memoryBlocks[freeIndex] := memoryBlocks[i];
      memoryBlocks[freeIndex] := memoryBlocks[freeIndex].(start :=
        if freeIndex == 0 then 0 else memoryBlocks[freeIndex - 1].start + memoryBlocks[freeIndex - 1].size);
    }

    /** The state of the copy-down loop after visiting the first i entries
        of s: the first freeIndex slots hold those entries packed, the
        entries from i on are still in place, and nothing has moved while no
        hole has been met. */
    ghost predicate Sliding(s: seq<Block>, i: int, freeIndex: int)
      reads this, memoryBlocks
    {
      0 <= freeIndex <= i <= totalBlocks <= memoryBlocks.Length && |s| == totalBlocks &&
      memoryBlocks[..freeIndex] == Pack(s[..i]) &&
      (forall k :: i <= k < totalBlocks ==> memoryBlocks[k] == s[k]) &&
      (freeIndex == i ==> forall k :: 0 <= k < i ==> !s[k].isFree)
    }

    /** One iteration of the copy-down loop: visits entry i. */
    method SlideStep(ghost s: seq<Block>, i: int, freeIndex: int) returns (next: int)
      requires Contiguous(s) && i < totalBlocks && Sliding(s, i, freeIndex)
      modifies memoryBlocks
      ensures Sliding(s, i + 1, next)
    {
      ghost var packed := Pack(s[..i]);
      PackStep(s, i);
      next := freeIndex;
      if !memoryBlocks[i].isFree {
        if i != freeIndex {
          assert Extent(packed) == if freeIndex == 0 then 0 else EndOf(memoryBlocks[freeIndex - 1]);
          MoveDown(i, freeIndex);
        } else {
          KeepInPlace(s, i);
        }
        assert memoryBlocks[..freeIndex + 1] == memoryBlocks[..freeIndex] + [memoryBlocks[freeIndex]];
        next := freeIndex + 1;
      }
    }

    /** The copy-down loop of compact_memory: copies every allocated entry
        down to the next free slot, recomputing the start of each entry it
        moves from the entry before; an entry already in place keeps its
        start. Returns the number of entries kept. */
    method SlideAllocatedDown() returns (freeIndex: int)
      requires 0 <= totalBlocks <= memoryBlocks.Length && Contiguous(Table())
      modifies memoryBlocks
      ensures 0 <= freeIndex <= totalBlocks
      ensures memoryBlocks[..freeIndex] == Pack(old(Table()))
    {
      ghost var s := Table();
      freeIndex := 0;
      var i := 0;
      while i < totalBlocks
        invariant Sliding(s, i, freeIndex)
      {
        freeIndex := SlideStep(s, i, freeIndex);
        i := i + 1;
      }
      assert s[..i] == s;
    }

    /** The end of compact_memory: one hole in slot freeIndex, from where
        the entry below it ends up to MAX_MEMORY_SIZE, and the live prefix
        cut after it. */
    method WriteTrailingHole(freeIndex: int)
      requires 0 <= freeIndex < memoryBlocks.Length
      modifies this`totalBlocks, memoryBlocks
      ensures totalBlocks == freeIndex + 1
      ensures var kept := old(memoryBlocks[..freeIndex]);
        Table() == kept + [Block(Extent(kept), MAX_MEMORY_SIZE - Extent(kept), true, NO_PROCESS)]
    {
      ghost var kept := memoryBlocks[..freeIndex];
      var top := if freeIndex == 0 then 0 else EndOf(memoryBlocks[freeIndex - 1]);
      assert top == Extent(kept);
      memoryBlocks[freeIndex] := Block(top, MAX_MEMORY_SIZE - top, true, NO_PROCESS);
      totalBlocks := freeIndex + 1;
      assert Table() == kept + [memoryBlocks[freeIndex]];
    }

    /** compact_memory: slides the allocated entries down, then writes one
        hole from the end of the last of them up to MAX_MEMORY_SIZE. The
        hole is written at index (number of allocated blocks), which must
        exist. */
    method CompactMemory()
      requires Valid()
      requires |AllocatedBlocks(Table())| < memoryBlocks.Length
      modifies this, memoryBlocks
      ensures Valid() && memoryBlocks == old(memoryBlocks)
      ensures Table() == Compact(old(Table()))
    {
      ghost var s := Table();
      PackEntries(s);
      var freeIndex := SlideAllocatedDown();
      CompactOfPacked(s, memoryBlocks[..freeIndex]);
      WriteTrailingHole(freeIndex);
      CompactWellFormed(s);
    }

    /** The sums of display_status: the allocated total and the free total,
        which together span the whole table. */
    method DisplayStatus() returns (allocatedMemory: int, freeMemory: int)
      requires Valid()
      ensures allocatedMemory == AllocatedMemory(Table())
      ensures freeMemory == FreeMemory(Table())
      ensures allocatedMemory + freeMemory == Extent(Table())
    {
      allocatedMemory, freeMemory := 0, 0;
      var i := 0;
      while i < totalBlocks
        invariant 0 <= i <= totalBlocks
        invariant allocatedMemory == AllocatedMemory(memoryBlocks[..i])
        invariant freeMemory == FreeMemory(memoryBlocks[..i])
      {
        assert memoryBlocks[..i + 1][..i] == memoryBlocks[..i];
        if !memoryBlocks[i].isFree {
          allocatedMemory := allocatedMemory + memoryBlocks[i].size;
        } else {
          freeMemory := freeMemory + memoryBlocks[i].size;
        }
        i := i + 1;
      }
      assert memoryBlocks[..i] == Table();
      TotalsCoverTable(Table());
    }
  }

  /** While no hole has been met, the copy-down leaves the entries where
      they are: packing the first i + 1 entries of a contiguous table with
      no hole among them gives them back unchanged. */
  lemma KeepInPlace(s: seq<Block>, i: int)
    requires Contiguous(s) && 0 <= i < |s|
    requires forall k :: 0 <= k <= i ==> !s[k].isFree
    ensures Pack(s[..i + 1]) == Pack(s[..i]) + [s[i]]
  {
    ContiguousPrefix(s, i + 1);
    ContiguousPrefix(s, i);
    PackFixesPacked(s[..i + 1]);
    PackFixesPacked(s[..i]);
    assert s[..i + 1] == s[..i] + [s[i]];
  }

  /** A table that agrees with s below i, holds x and y at i and i + 1, and
      continues with the rest of s one index up is s with entry i replaced
      by x and y. */
  lemma SpliceTwo(u: seq<Block>, s: seq<Block>, i: int, x: Block, y: Block)
    requires 0 <= i < |s| && |u| == |s| + 1
    requires forall k :: 0 <= k < i ==> u[k] == s[k]
    requires u[i] == x && u[i + 1] == y
    requires forall k :: i + 1 < k < |u| ==> u[k] == s[k - 1]
    ensures u == s[..i] + [x, y] + s[i + 1..]
  {
    var v := s[..i] + [x, y] + s[i + 1..];
    assert forall k :: 0 <= k < |u| ==> u[k] == v[k];
  }
}
