/** The block record of the allocator, the invariants of its block table and
    the two totals the status report adds up. */
module Blocks {

  /** Number of entries of the static block table, and the address space
      that compaction assumes (1 MB). */
  const MAX_MEMORY_SIZE: int := 1048576

  /** The processID written into a block that no process has been given. */
  const NO_PROCESS: int := -1

  /** One entry of the block table: the address range [start, start + size).
      Whether the block is a hole is decided by isFree alone: a released
      block may still carry the processID of its last owner. */
  datatype Block = Block(start: int, size: int, isFree: bool, processID: int)

  /** First address past the block. */
  function EndOf(b: Block): int {
    b.start + b.size
  }

  /** First address past the last block of the table (0 for an empty table):
      the start that the next block laid after the table gets. */
  function Extent(s: seq<Block>): int {
    if |s| == 0 then 0 else EndOf(s[|s| - 1])
  }

  /** Each block starts where the one before it ends, and no block has a
      negative size. */
  ghost predicate Adjoining(s: seq<Block>) {
    (forall i :: 0 <= i < |s| ==> s[i].size >= 0) &&
    (forall i, j :: 0 <= i && j == i + 1 && j < |s| ==> s[j].start == EndOf(s[i]))
  }

  /** The blocks cover [0, Extent(s)) in address order, without gaps or
      overlaps. */
  ghost predicate Contiguous(s: seq<Block>) {
    (|s| > 0 ==> s[0].start == 0) && Adjoining(s)
  }

  /** Holes are always merged: no two neighbouring blocks are both free. */
  ghost predicate NoAdjacentFree(s: seq<Block>) {
    forall i, j :: 0 <= i && j == i + 1 && j < |s| ==> !(s[i].isFree && s[j].isFree)
  }

  /** The invariant every operation of the allocator keeps: a non-empty,
      contiguous table from address 0 that ends inside the address space
      and never holds two neighbouring holes. */
  ghost predicate WellFormed(s: seq<Block>) {
    |s| > 0 && Contiguous(s) && Extent(s) <= MAX_MEMORY_SIZE && NoAdjacentFree(s)
  }

  /** Sum of the sizes of the allocated blocks. */
  function AllocatedMemory(s: seq<Block>): int {
    if |s| == 0 then 0
    else AllocatedMemory(s[..|s| - 1]) + (if s[|s| - 1].isFree then 0 else s[|s| - 1].size)
  }

  /** Sum of the sizes of the holes. */
  function FreeMemory(s: seq<Block>): int {
    if |s| == 0 then 0
    else FreeMemory(s[..|s| - 1]) + (if s[|s| - 1].isFree then s[|s| - 1].size else 0)
  }

  lemma ContiguousPrefix(s: seq<Block>, k: int)
    requires Contiguous(s) && 0 <= k <= |s|
    ensures Contiguous(s[..k])
  {
  }

  lemma AdjoiningSlice(s: seq<Block>, lo: int, hi: int)
    requires Adjoining(s) && 0 <= lo <= hi <= |s|
    ensures Adjoining(s[lo..hi])
  {
    var r := s[lo..hi];
    assert forall k :: 0 <= k < |r| ==> r[k] == s[lo + k];
  }

  /** Over a run of adjoining blocks the two totals add up to the addresses
      the run spans. */
  lemma {:induction false} TotalsSpanRun(s: seq<Block>)
    requires Adjoining(s) && |s| > 0
    ensures AllocatedMemory(s) + FreeMemory(s) == Extent(s) - s[0].start
    ensures AllocatedMemory(s) >= 0 && FreeMemory(s) >= 0
  {
    var p := s[..|s| - 1];
    if |p| > 0 {
      assert Adjoining(p);
      TotalsSpanRun(p);
      assert Extent(p) == s[|s| - 1].start;
    }
  }

  /** The two totals of the status report partition the covered range:
      together they are exactly the size of the address space in use. */
  lemma TotalsCoverTable(s: seq<Block>)
    requires Contiguous(s)
    ensures AllocatedMemory(s) + FreeMemory(s) == Extent(s)
    ensures AllocatedMemory(s) >= 0 && FreeMemory(s) >= 0
  {
    if |s| > 0 {
      TotalsSpanRun(s);
    }
  }

  /** Every block of a contiguous table lies inside [0, Extent(s)). */
  lemma {:induction false} BlocksInside(s: seq<Block>)
    requires Contiguous(s)
    ensures forall i :: 0 <= i < |s| ==> 0 <= s[i].start && EndOf(s[i]) <= Extent(s)
  {
    if |s| > 0 {
      var p := s[..|s| - 1];
      ContiguousPrefix(s, |s| - 1);
      BlocksInside(p);
      assert forall i :: 0 <= i < |p| ==> p[i] == s[i];
      if |s| > 1 {
        assert Extent(p) == s[|s| - 1].start;
      }
    }
  }

  /** A block laid right after a contiguous table extends it. */
  lemma ContiguousAppend(s: seq<Block>, b: Block)
    requires Contiguous(s) && b.start == Extent(s) && b.size >= 0
    ensures Contiguous(s + [b]) && Extent(s + [b]) == EndOf(b)
    ensures (s + [b])[..|s|] == s
  {
    var t := s + [b];
    assert t[..|s|] == s;
    forall k, j | 0 <= k && j == k + 1 && j < |t| ensures t[j].start == EndOf(t[k]) {
      if j < |s| {
        assert t[j] == s[j] && t[k] == s[k];
      }
    }
  }

  /** Replacing the run s[lo..hi] by a run of adjoining blocks that covers
      the same addresses leaves a contiguous table over the same range. */
  lemma ReplaceRun(s: seq<Block>, lo: int, hi: int, run: seq<Block>)
    requires Contiguous(s) && 0 <= lo < hi <= |s|
    requires Adjoining(run) && |run| > 0
    requires run[0].start == s[lo].start && EndOf(run[|run| - 1]) == EndOf(s[hi - 1])
    ensures Contiguous(s[..lo] + run + s[hi..])
    ensures Extent(s[..lo] + run + s[hi..]) == Extent(s)
  {
    var t := s[..lo] + run + s[hi..];
    var m := lo + |run|;
    assert forall k :: 0 <= k < lo ==> t[k] == s[k];
    assert forall k :: lo <= k < m ==> t[k] == run[k - lo];
    assert forall k :: m <= k < |t| ==> t[k] == s[k - m + hi];
    forall k | 0 < k < |t| ensures t[k].start == EndOf(t[k - 1]) {
      if k == lo {
        assert t[k - 1] == s[lo - 1];
      } else if k == m {
        assert t[k - 1] == run[|run| - 1];
      }
    }
  }

  /** The same replacement changes each total by the difference between the
      totals of the two runs. */
  lemma ReplaceRunTotals(s: seq<Block>, lo: int, hi: int, run: seq<Block>)
    requires 0 <= lo <= hi <= |s|
    ensures AllocatedMemory(s[..lo] + run + s[hi..])
         == AllocatedMemory(s) - AllocatedMemory(s[lo..hi]) + AllocatedMemory(run)
    ensures FreeMemory(s[..lo] + run + s[hi..])
         == FreeMemory(s) - FreeMemory(s[lo..hi]) + FreeMemory(run)
  {
    assert s == s[..lo] + s[lo..hi] + s[hi..];
    TotalsAppend(s[..lo] + run, s[hi..]);
    TotalsAppend(s[..lo], run);
    TotalsAppend(s[..lo] + s[lo..hi], s[hi..]);
    TotalsAppend(s[..lo], s[lo..hi]);
  }

  /** Both totals distribute over concatenation. */
  lemma {:induction false} TotalsAppend(a: seq<Block>, b: seq<Block>)
    ensures AllocatedMemory(a + b) == AllocatedMemory(a) + AllocatedMemory(b)
    ensures FreeMemory(a + b) == FreeMemory(a) + FreeMemory(b)
  {
    if |b| > 0 {
      var b' := b[..|b| - 1];
      assert (a + b)[..|a + b| - 1] == a + b';
      TotalsAppend(a, b');
    } else {
      assert a + b == a;
    }
  }
}
