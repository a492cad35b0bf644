/** release_memory on the value of the table: free the first block a process
    holds and merge it with the holes beside it. */
module Coalescing {
  import opened Blocks
  import opened Splitting

  /** The block is allocated and was given to processID. A hole never owns
      anything, whatever processID it still records. */
  predicate Owns(b: Block, processID: int) {
    !b.isFree && b.processID == processID
  }

  /** Index of the first block processID owns, or -1 when it owns none. */
  function OwnedBlock(s: seq<Block>, processID: int): (r: int)
    ensures r == -1 ==> forall j :: 0 <= j < |s| ==> !Owns(s[j], processID)
    ensures r != -1 ==>
      0 <= r < |s| && Owns(s[r], processID) &&
      forall j :: 0 <= j < r ==> !Owns(s[j], processID)
  {
    if |s| == 0 then -1
    else
      var r := OwnedBlock(s[..|s| - 1], processID);
      if r != -1 then r
      else if Owns(s[|s| - 1], processID) then |s| - 1
      else -1
  }

  /** The first owned block is determined by its defining property. */
  lemma OwnedBlockUnique(s: seq<Block>, processID: int, r: int)
    requires r == -1 ==> forall j :: 0 <= j < |s| ==> !Owns(s[j], processID)
    requires r != -1 ==>
      0 <= r < |s| && Owns(s[r], processID) &&
      forall j :: 0 <= j < r ==> !Owns(s[j], processID)
    ensures r == OwnedBlock(s, processID)
  {
  }

  /** Block k absorbs block k + 1, whose entry is dropped. */
  function MergeWithNext(s: seq<Block>, k: int): seq<Block>
    requires 0 <= k < |s| - 1
  {
    s[..k] + [s[k].(size := s[k].size + s[k + 1].size)] + s[k + 2..]
  }

  /** Block j absorbs its successor when that successor is a hole. */
  function Coalesce(t: seq<Block>, j: int): seq<Block>
    requires 0 <= j < |t|
  {
    if j < |t| - 1 && t[j + 1].isFree then MergeWithNext(t, j) else t
  }

  /** Block i marked free, then merged into a free predecessor, then the
      resulting block merged with a free successor. */
  function Free(s: seq<Block>, i: int): seq<Block>
    requires 0 <= i < |s|
  {
    var t := s[i := s[i].(isFree := true)];
    if i > 0 && t[i - 1].isFree then Coalesce(MergeWithNext(t, i - 1), i - 1)
    else Coalesce(t, i)
  }

  /** The whole release: 0 and the new table, or -1 and the unchanged table
      when processID owns no block. */
  function Release(s: seq<Block>, processID: int): Step {
    var i := OwnedBlock(s, processID);
    if i == -1 then Step(s, -1) else Step(Free(s, i), 0)
  }

  /** First index of the run that Free(s, i) collapses. */
  function MergeLow(s: seq<Block>, i: int): int
    requires 0 <= i < |s|
  {
    if i > 0 && s[i - 1].isFree then i - 1 else i
  }

  /** Last index of the run that Free(s, i) collapses. */
  function MergeHigh(s: seq<Block>, i: int): int
    requires 0 <= i < |s|
  {
    if i < |s| - 1 && s[i + 1].isFree then i + 1 else i
  }

  /** Merging x with the block y after it, in any surroundings. */
  lemma MergeInPlace(pre: seq<Block>, x: Block, y: Block, post: seq<Block>)
    ensures MergeWithNext(pre + [x, y] + post, |pre|) == pre + [x.(size := x.size + y.size)] + post
  {
    var s := pre + [x, y] + post;
    assert s[..|pre|] == pre;
    assert s[|pre| + 2..] == post;
  }

  /** The run s[lo..hi + 1] replaced by one hole spanning its addresses,
      recording the processID of its first block. */
  function Collapse(s: seq<Block>, lo: int, hi: int): seq<Block>
    requires 0 <= lo <= hi < |s|
  {
    s[..lo] + [Block(s[lo].start, EndOf(s[hi]) - s[lo].start, true, s[lo].processID)] + s[hi + 1..]
  }

  /** The forward step: a block x followed by rest absorbs the first block
      of rest when it is a hole. */
  lemma CoalesceInPlace(pre: seq<Block>, x: Block, rest: seq<Block>)
    ensures Coalesce(pre + [x] + rest, |pre|)
         == if |rest| > 0 && rest[0].isFree
            then pre + [x.(size := x.size + rest[0].size)] + rest[1..]
            else pre + [x] + rest
  {
    if |rest| > 0 && rest[0].isFree {
      assert pre + [x] + rest == pre + [x, rest[0]] + rest[1..];
      MergeInPlace(pre, x, rest[0], rest[1..]);
    }
  }

  /** Block i, once free, absorbed by the free block before it: one hole
      from the start of the predecessor to the end of block i. */
  lemma AbsorbedBack(s: seq<Block>, i: int)
    requires 0 < i < |s| && s[i - 1].isFree && s[i].start == EndOf(s[i - 1])
    ensures
      var x := Block(s[i - 1].start, EndOf(s[i]) - s[i - 1].start, true, s[i - 1].processID);
      MergeWithNext(s[i := s[i].(isFree := true)], i - 1) == s[..i - 1] + [x] + s[i + 1..]
  {
    var freed := s[i].(isFree := true);
    var t := s[i := freed];
    assert t == s[..i - 1] + [s[i - 1], freed] + s[i + 1..];
    assert EndOf(s[i]) - s[i - 1].start == s[i - 1].size + freed.size;
    MergeInPlace(s[..i - 1], s[i - 1], freed, s[i + 1..]);
  }

  /** The backward step with a free predecessor: the table before the
      forward step has block i merged into it. */
  lemma MergeBack(s: seq<Block>, i: int)
    requires 0 < i < |s| && s[i - 1].isFree && s[i].start == EndOf(s[i - 1])
    ensures
      var x := Block(s[i - 1].start, EndOf(s[i]) - s[i - 1].start, true, s[i - 1].processID);
      Free(s, i) == Coalesce(s[..i - 1] + [x] + s[i + 1..], i - 1)
  {
    AbsorbedBack(s, i);
  }

  /** The backward step without a free predecessor: block i only changes
      its flag. */
  lemma FreeAlone(s: seq<Block>, i: int)
    requires 0 <= i < |s| && !(i > 0 && s[i - 1].isFree)
    ensures
      var x := Block(s[i].start, EndOf(s[i]) - s[i].start, true, s[i].processID);
      Free(s, i) == Coalesce(s[..i] + [x] + s[i + 1..], i)
  {
    assert s[i := s[i].(isFree := true)] == s[..i] + [s[i].(isFree := true)] + s[i + 1..];
  }

  /** Block i starts where its predecessor ends and ends where its
      successor starts. */
  ghost predicate AdjoinsNeighbours(s: seq<Block>, i: int)
    requires 0 <= i < |s|
  {
    (i > 0 ==> s[i].start == EndOf(s[i - 1])) &&
    (i < |s| - 1 ==> s[i + 1].start == EndOf(s[i]))
  }

  /** The forward step finishes the collapse: once the run up to block i is
      one hole x, absorbing a free successor gives the collapsed table. */
  lemma ForwardCollapses(s: seq<Block>, lo: int, i: int)
    requires 0 <= lo <= i < |s|
    requires i < |s| - 1 ==> s[i + 1].start == EndOf(s[i])
    ensures
      var x := Block(s[lo].start, EndOf(s[i]) - s[lo].start, true, s[lo].processID);
      Coalesce(s[..lo] + [x] + s[i + 1..], lo) == Collapse(s, lo, MergeHigh(s, i))
  {
    var hi := MergeHigh(s, i);
    var x := Block(s[lo].start, EndOf(s[i]) - s[lo].start, true, s[lo].processID);
    var y := Block(s[lo].start, EndOf(s[hi]) - s[lo].start, true, s[lo].processID);
    var rest := s[i + 1..];
    assert |rest| > 0 ==> rest[0] == s[i + 1];
    CoalesceInPlace(s[..lo], x, rest);
    if hi > i {
      assert rest[1..] == s[hi + 1..];
      assert x.(size := x.size + rest[0].size) == y;
    } else {
      assert x == y && rest == s[hi + 1..];
    }
  }

  /** Freeing block i replaces the run from its free predecessor (if any) to
      its free successor (if any) by one hole spanning exactly the addresses
      of that run; the hole keeps the processID recorded in the first block
      of the run. Up to three blocks collapse into one. */
  lemma FreeCoalesces(s: seq<Block>, i: int)
    requires 0 <= i < |s| && AdjoinsNeighbours(s, i)
    ensures
      Free(s, i) == Collapse(s, MergeLow(s, i), MergeHigh(s, i))
  {
    if i > 0 && s[i - 1].isFree {
      MergeBack(s, i);
      ForwardCollapses(s, i - 1, i);
    } else {
      FreeAlone(s, i);
      ForwardCollapses(s, i, i);
    }
  }

  /** Exactly one block of the run is allocated: its size is the run's
      allocated total. */
  lemma {:induction false} OnlyOneAllocated(r: seq<Block>, k: int)
    requires 0 <= k < |r| && !r[k].isFree
    requires forall j :: 0 <= j < |r| && j != k ==> r[j].isFree
    ensures AllocatedMemory(r) == r[k].size
  {
    var p := r[..|r| - 1];
    if k < |r| - 1 {
      OnlyOneAllocated(p, k);
    } else {
      NoneAllocated(p);
    }
  }

  lemma {:induction false} NoneAllocated(r: seq<Block>)
    requires forall j :: 0 <= j < |r| ==> r[j].isFree
    ensures AllocatedMemory(r) == 0
  {
    if |r| > 0 {
      NoneAllocated(r[..|r| - 1]);
    }
  }

  /** The collapsed hole has no free neighbour when the run reaches out to
      every hole beside block i: a free neighbour of the run would have been
      next to a hole in the old table. */
  lemma CollapseKeepsHolesApart(s: seq<Block>, i: int)
    requires NoAdjacentFree(s) && 0 <= i < |s|
    ensures NoAdjacentFree(Collapse(s, MergeLow(s, i), MergeHigh(s, i)))
  {
    var lo, hi := MergeLow(s, i), MergeHigh(s, i);
    var t := Collapse(s, lo, hi);
    var m := lo + 1;
    assert forall k :: 0 <= k < lo ==> t[k] == s[k];
    assert forall k :: m <= k < |t| ==> t[k] == s[k - m + hi + 1];
    forall k | 0 < k < |t| ensures !(t[k - 1].isFree && t[k].isFree) {
      if k == lo {
        assert t[k - 1] == s[lo - 1];
      } else if k == m {
        assert t[k] == s[hi + 1];
      }
    }
  }

  /** In the run around an allocated block i, only block i is allocated;
      the holes beside it make up the rest of the addresses of the run. */
  lemma RunTotals(s: seq<Block>, i: int)
    requires Contiguous(s) && 0 <= i < |s| && !s[i].isFree
    ensures var lo, hi := MergeLow(s, i), MergeHigh(s, i);
      AllocatedMemory(s[lo..hi + 1]) == s[i].size &&
      FreeMemory(s[lo..hi + 1]) == EndOf(s[hi]) - s[lo].start - s[i].size
  {
    var lo, hi := MergeLow(s, i), MergeHigh(s, i);
    var run := s[lo..hi + 1];
    AdjoiningSlice(s, lo, hi + 1);
    TotalsSpanRun(run);
    assert Extent(run) == EndOf(s[hi]) && run[0] == s[lo];
    assert forall j :: 0 <= j < |run| && j != i - lo ==> run[j].isFree;
    OnlyOneAllocated(run, i - lo);
  }

  /** Collapsing the run around an allocated block i moves exactly its size
      from the allocated total to the free total. */
  lemma CollapseMovesSize(s: seq<Block>, i: int)
    requires Contiguous(s) && 0 <= i < |s| && !s[i].isFree
    ensures AllocatedMemory(Collapse(s, MergeLow(s, i), MergeHigh(s, i))) == AllocatedMemory(s) - s[i].size
    ensures FreeMemory(Collapse(s, MergeLow(s, i), MergeHigh(s, i))) == FreeMemory(s) + s[i].size
  {
    var lo, hi := MergeLow(s, i), MergeHigh(s, i);
    var hole := Block(s[lo].start, EndOf(s[hi]) - s[lo].start, true, s[lo].processID);
    ReplaceRunTotals(s, lo, hi + 1, [hole]);
    assert AllocatedMemory([hole]) == 0 && FreeMemory([hole]) == hole.size by {
      assert [hole][..0] == [];
    }
    RunTotals(s, i);
  }

  /** Collapsing the run around block i keeps the table well formed over the
      same range. */
  lemma CollapseKeepsTable(s: seq<Block>, i: int)
    requires WellFormed(s) && 0 <= i < |s|
    ensures WellFormed(Collapse(s, MergeLow(s, i), MergeHigh(s, i)))
    ensures Extent(Collapse(s, MergeLow(s, i), MergeHigh(s, i))) == Extent(s)
  {
    var lo, hi := MergeLow(s, i), MergeHigh(s, i);
    var hole := Block(s[lo].start, EndOf(s[hi]) - s[lo].start, true, s[lo].processID);
    assert hole.size >= 0 by {
      if hi > i { assert s[hi].start == EndOf(s[i]); }
      if lo < i { assert s[i].start == EndOf(s[lo]); }
    }
    var c := Collapse(s, lo, hi);
    assert c == s[..lo] + [hole] + s[hi + 1..];
    assert Adjoining([hole]);
    CollapseKeepsHolesApart(s, i);
    ReplaceRun(s, lo, hi + 1, [hole]);
    assert |c| > 0 && Contiguous(c) && Extent(c) <= MAX_MEMORY_SIZE && NoAdjacentFree(c);
  }

  /** A release that succeeds keeps the table well formed over the same
      range and moves the released block's size from the allocated total to
      the free total; a release that fails changes nothing. */
  lemma ReleasePreservesTable(s: seq<Block>, processID: int)
    requires WellFormed(s)
    ensures
      var st := Release(s, processID);
      var i := OwnedBlock(s, processID);
      WellFormed(st.table) && Extent(st.table) == Extent(s) &&
      (st.result == -1 <==> i == -1) &&
      (i == -1 ==> st.table == s) &&
      (i != -1 ==>
        st.result == 0 &&
        AllocatedMemory(st.table) == AllocatedMemory(s) - s[i].size &&
        FreeMemory(st.table) == FreeMemory(s) + s[i].size)
  {
    var i := OwnedBlock(s, processID);
    if i != -1 {
      assert AdjoinsNeighbours(s, i) by {
        if i > 0 {
          assert s[i].start == EndOf(s[i - 1]);
        }
        if i < |s| - 1 {
          assert s[i + 1].start == EndOf(s[i]);
        }
      }
      FreeCoalesces(s, i);
      CollapseKeepsTable(s, i);
      CollapseMovesSize(s, i);
    }
  }
}
