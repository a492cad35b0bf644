/** allocate_memory on the value of the table: choose a hole, give it to the
    process and split off the unused tail as a new hole. */
module Splitting {
  import opened Blocks
  import opened Placement

  /** The table after an operation together with the value it returns. */
  datatype Step = Step(table: seq<Block>, result: int)

  /** What the chosen hole b becomes: the process's block at b's start,
      followed, when b is larger than the request, by a hole of the rest. */
  function Carve(b: Block, requestSize: int, processID: int): seq<Block> {
    var given := Block(b.start, requestSize, false, processID);
    if b.size > requestSize then
      [given, Block(b.start + requestSize, b.size - requestSize, true, NO_PROCESS)]
    else
      [given]
  }

  /** Block i given to processID, the blocks around it untouched. */
  function Place(s: seq<Block>, i: int, requestSize: int, processID: int): seq<Block>
    requires 0 <= i < |s|
  {
    s[..i] + Carve(s[i], requestSize, processID) + s[i + 1..]
  }

  /** The whole allocation: the new table and the start address of the
      allocated block, or the unchanged table and -1. */
  function Allocate(s: seq<Block>, requestSize: int, processID: int, strategy: char): Step {
    var i := Choose(s, requestSize, strategy);
    if i == -1 then Step(s, -1)
    else Step(Place(s, i, requestSize, processID), s[i].start)
  }

  /** The allocation splits a hole, so the table grows by one entry. */
  predicate Splits(s: seq<Block>, requestSize: int, strategy: char) {
    var i := Choose(s, requestSize, strategy);
    i != -1 && s[i].size > requestSize
  }

  /** An allocation fails exactly when the strategy is unknown or no hole is
      large enough, and a failed allocation leaves the table as it was. */
  lemma AllocateFailure(s: seq<Block>, requestSize: int, processID: int, strategy: char)
    requires Contiguous(s)
    ensures Allocate(s, requestSize, processID, strategy).result == -1
        <==> strategy !in {'F', 'B', 'W'} || NoneFits(s, requestSize)
    ensures Allocate(s, requestSize, processID, strategy).result == -1
        ==> Allocate(s, requestSize, processID, strategy).table == s
  {
    BlocksInside(s);
  }

  /** What a successful allocation does to the table, entry by entry: the
      chosen hole becomes the process's block at the same start; on a split
      a hole of the remaining size follows it and every later entry moves up
      one index unchanged; on an exact fit nothing but isFree and processID
      changes. The result is the start of the chosen hole. */
  lemma AllocateEffect(s: seq<Block>, requestSize: int, processID: int, strategy: char)
    requires Allocate(s, requestSize, processID, strategy).result != -1
    ensures
      var i := Choose(s, requestSize, strategy);
      var t := Allocate(s, requestSize, processID, strategy).table;
      0 <= i < |s| && Fits(s[i], requestSize) &&
      Allocate(s, requestSize, processID, strategy).result == s[i].start &&
      (forall k :: 0 <= k < i ==> t[k] == s[k]) &&
      (if s[i].size > requestSize then
         |t| == |s| + 1 &&
         t[i] == Block(s[i].start, requestSize, false, processID) &&
         t[i + 1] == Block(s[i].start + requestSize, s[i].size - requestSize, true, NO_PROCESS) &&
         (forall k :: i < k < |s| ==> t[k + 1] == s[k])
       else
         |t| == |s| &&
         t[i] == s[i].(isFree := false, processID := processID) &&
         (forall k :: i < k < |s| ==> t[k] == s[k]))
  {
  }

  /** The carved run covers exactly the hole it replaces, starts with an
      allocated block, and moves requestSize from the free total to the
      allocated total. */
  lemma CarveCoversHole(b: Block, requestSize: int, processID: int)
    requires b.isFree && 0 < requestSize <= b.size
    ensures var run := Carve(b, requestSize, processID);
      Adjoining(run) && run[0].start == b.start && EndOf(run[|run| - 1]) == EndOf(b) &&
      !run[0].isFree &&
      AllocatedMemory(run) == AllocatedMemory([b]) + requestSize &&
      FreeMemory(run) == FreeMemory([b]) - requestSize
  {
    var run := Carve(b, requestSize, processID);
    if |run| == 2 {
      assert run[..1] == [run[0]];
    }
  }

  /** Giving a hole to a process never puts two holes side by side: the hole
      had no free neighbour, and its first part is now allocated. */
  lemma PlaceKeepsHolesApart(s: seq<Block>, i: int, requestSize: int, processID: int)
    requires NoAdjacentFree(s) && 0 <= i < |s| && s[i].isFree
    ensures NoAdjacentFree(Place(s, i, requestSize, processID))
  {
    var run := Carve(s[i], requestSize, processID);
    var t := Place(s, i, requestSize, processID);
    var m := i + |run|;
    assert forall k :: 0 <= k < i ==> t[k] == s[k];
    assert forall k :: i <= k < m ==> t[k] == run[k - i];
    assert forall k :: m <= k < |t| ==> t[k] == s[k - m + i + 1];
    forall k | 0 < k < |t| ensures !(t[k - 1].isFree && t[k].isFree) {
      if k == m {
        assert t[k] == s[i + 1];
      }
    }
  }

  /** Giving a fitting hole to a process keeps the table well formed over
      the same range. */
  lemma PlaceKeepsTable(s: seq<Block>, i: int, requestSize: int, processID: int)
    requires WellFormed(s) && 0 <= i < |s| && Fits(s[i], requestSize) && requestSize > 0
    ensures WellFormed(Place(s, i, requestSize, processID))
    ensures Extent(Place(s, i, requestSize, processID)) == Extent(s)
  {
    var run := Carve(s[i], requestSize, processID);
    var t := Place(s, i, requestSize, processID);
    CarveCoversHole(s[i], requestSize, processID);
    ReplaceRun(s, i, i + 1, run);
    PlaceKeepsHolesApart(s, i, requestSize, processID);
    assert t == s[..i] + run + s[i + 1..];
    assert |t| > 0 && Contiguous(t) && Extent(t) <= MAX_MEMORY_SIZE && NoAdjacentFree(t);
  }

  /** Giving a fitting hole to a process moves exactly the request from the
      free total to the allocated total. */
  lemma PlaceMovesRequest(s: seq<Block>, i: int, requestSize: int, processID: int)
    requires 0 <= i < |s| && Fits(s[i], requestSize) && requestSize > 0
    ensures AllocatedMemory(Place(s, i, requestSize, processID)) == AllocatedMemory(s) + requestSize
    ensures FreeMemory(Place(s, i, requestSize, processID)) == FreeMemory(s) - requestSize
  {
    var run := Carve(s[i], requestSize, processID);
    assert s[i..i + 1] == [s[i]];
    CarveCoversHole(s[i], requestSize, processID);
    ReplaceRunTotals(s, i, i + 1, run);
  }

  /** Allocation keeps the table well formed over the same range, and moves
      exactly requestSize from the free total to the allocated total when it
      succeeds. */
  lemma AllocatePreservesTable(s: seq<Block>, requestSize: int, processID: int, strategy: char)
    requires WellFormed(s) && requestSize > 0
    ensures
      var st := Allocate(s, requestSize, processID, strategy);
      WellFormed(st.table) && Extent(st.table) == Extent(s) &&
      AllocatedMemory(st.table) == AllocatedMemory(s) + (if st.result == -1 then 0 else requestSize) &&
      FreeMemory(st.table) == FreeMemory(s) - (if st.result == -1 then 0 else requestSize)
  {
    var i := Choose(s, requestSize, strategy);
    if i != -1 {
      BlocksInside(s);
      assert s[i].start != -1;
      PlaceKeepsTable(s, i, requestSize, processID);
      PlaceMovesRequest(s, i, requestSize, processID);
    }
  }
}
