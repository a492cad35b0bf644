/** compact_memory on the value of the table: slide every allocated block
    down to the lowest free address, keeping their order, and leave one hole
    from the end of the last of them to the end of the address space. */
module Compaction {
  import opened Blocks

  /** The allocated blocks of s, in table order. */
  function AllocatedBlocks(s: seq<Block>): seq<Block> {
    if |s| == 0 then []
    else AllocatedBlocks(s[..|s| - 1]) + (if s[|s| - 1].isFree then [] else [s[|s| - 1]])
  }

  /** The allocated blocks of s as the copy-down loop leaves them: visited in
      table order, each one moved to start where the previous kept block
      ends. */
  function Pack(s: seq<Block>): seq<Block> {
    if |s| == 0 then []
    else
      var p := Pack(s[..|s| - 1]);
      var b := s[|s| - 1];
      if b.isFree then p else p + [b.(start := Extent(p))]
  }

  /** The compacted table: the packed blocks, then one hole up to
      MAX_MEMORY_SIZE (not up to the size the table was initialized with). */
  function Compact(s: seq<Block>): seq<Block> {
    var p := Pack(s);
    p + [Block(Extent(p), MAX_MEMORY_SIZE - Extent(p), true, NO_PROCESS)]
  }

  /** Compaction is the packed blocks followed by the trailing hole, in
      whatever form the packed blocks are given. */
  lemma CompactOfPacked(s: seq<Block>, kept: seq<Block>)
    requires kept == Pack(s)
    ensures Compact(s) == kept + [Block(Extent(kept), MAX_MEMORY_SIZE - Extent(kept), true, NO_PROCESS)]
  {
  }

  /** One step of the copy-down loop: visiting entry i either skips a hole
      or appends the block right after those already packed. */
  lemma PackStep(s: seq<Block>, i: int)
    requires 0 <= i < |s|
    ensures Pack(s[..i + 1]) == if s[i].isFree then Pack(s[..i])
                                else Pack(s[..i]) + [s[i].(start := Extent(Pack(s[..i])))]
  {
    assert s[..i + 1][..i] == s[..i];
  }

  /** The packed blocks end exactly at the allocated total. */
  lemma {:induction false} PackExtent(s: seq<Block>)
    ensures Extent(Pack(s)) == AllocatedMemory(s)
  {
    if |s| > 0 {
      PackExtent(s[..|s| - 1]);
    }
  }

  /** Packing keeps the allocated total. */
  lemma {:induction false} PackKeepsAllocated(s: seq<Block>)
    ensures AllocatedMemory(Pack(s)) == AllocatedMemory(s)
  {
    if |s| > 0 {
      var s' := s[..|s| - 1];
      PackKeepsAllocated(s');
      if !s[|s| - 1].isFree {
        var p' := Pack(s');
        var p := p' + [s[|s| - 1].(start := Extent(p'))];
        assert p[..|p| - 1] == p';
      }
    }
  }

  /** Packing keeps exactly the allocated blocks, in their order, with their
      sizes and owners. */
  lemma {:induction false} PackEntries(s: seq<Block>)
    ensures var p, a := Pack(s), AllocatedBlocks(s);
      |p| == |a| &&
      forall k :: 0 <= k < |p| ==>
        !p[k].isFree && p[k].size == a[k].size && p[k].processID == a[k].processID
  {
    if |s| > 0 {
      var s' := s[..|s| - 1];
      var b := s[|s| - 1];
      PackEntries(s');
      var p', a' := Pack(s'), AllocatedBlocks(s');
      if b.isFree {
        assert AllocatedBlocks(s) == a' + [] == a';
      } else {
        var p, a := p' + [b.(start := Extent(p'))], a' + [b];
        assert Pack(s) == p && AllocatedBlocks(s) == a;
        forall k | 0 <= k < |p|
          ensures !p[k].isFree && p[k].size == a[k].size && p[k].processID == a[k].processID
        {
          if k < |p'| {
            assert p[k] == p'[k] && a[k] == a'[k];
          }
        }
      }
    }
  }

  /** The packed blocks lie back to back from address 0. */
  lemma {:induction false} PackContiguous(s: seq<Block>)
    requires forall k :: 0 <= k < |s| ==> s[k].size >= 0
    ensures Contiguous(Pack(s))
  {
    if |s| > 0 {
      var s' := s[..|s| - 1];
      var b := s[|s| - 1];
      PackContiguous(s');
      if !b.isFree {
        ContiguousAppend(Pack(s'), b.(start := Extent(Pack(s'))));
      }
    }
  }

  /** Packing keeps exactly the allocated blocks, in their order, with their
      sizes and owners, and lays them back to back from address 0 up to the
      allocated total. */
  lemma PackLayout(s: seq<Block>)
    requires Contiguous(s)
    ensures var p, a := Pack(s), AllocatedBlocks(s);
      |p| == |a| &&
      (forall k :: 0 <= k < |p| ==>
         !p[k].isFree && p[k].size == a[k].size && p[k].processID == a[k].processID) &&
      Contiguous(p) &&
      Extent(p) == AllocatedMemory(s) == AllocatedMemory(p)
  {
    PackEntries(s);
    PackContiguous(s);
    PackExtent(s);
    PackKeepsAllocated(s);
  }

  /** A table that is already packed (allocated blocks only, back to back
      from 0) is left as it is by packing. */
  lemma {:induction false} PackFixesPacked(s: seq<Block>)
    requires Contiguous(s)
    requires forall k :: 0 <= k < |s| ==> !s[k].isFree
    ensures Pack(s) == s
  {
    if |s| > 0 {
      var s' := s[..|s| - 1];
      ContiguousPrefix(s, |s| - 1);
      PackFixesPacked(s');
      if |s| > 1 {
        assert s[|s| - 1].start == EndOf(s[|s| - 2]) == Extent(s');
      }
      assert s == s' + [s[|s| - 1]];
    }
  }

  /** Packing a packed table changes nothing, whatever the original. */
  lemma {:induction false} PackIdempotent(s: seq<Block>)
    ensures Pack(Pack(s)) == Pack(s)
  {
    if |s| > 0 {
      var s' := s[..|s| - 1];
      var b := s[|s| - 1];
      PackIdempotent(s');
      if !b.isFree {
        var p' := Pack(s');
        var p := p' + [b.(start := Extent(p'))];
        assert p[..|p| - 1] == p';
      }
    }
  }

  /** A hole from the end of a contiguous table of allocated blocks up to
      MAX_MEMORY_SIZE makes a well-formed table of the whole address space;
      the hole adds the rest of the address space to the free total. */
  lemma AppendTrailingHole(p: seq<Block>)
    requires Contiguous(p) && Extent(p) <= MAX_MEMORY_SIZE
    requires forall k :: 0 <= k < |p| ==> !p[k].isFree
    ensures var c := p + [Block(Extent(p), MAX_MEMORY_SIZE - Extent(p), true, NO_PROCESS)];
      WellFormed(c) && Extent(c) == MAX_MEMORY_SIZE &&
      AllocatedMemory(c) == AllocatedMemory(p) &&
      FreeMemory(c) == FreeMemory(p) + MAX_MEMORY_SIZE - Extent(p)
  {
    var c := p + [Block(Extent(p), MAX_MEMORY_SIZE - Extent(p), true, NO_PROCESS)];
    assert c[..|p|] == p;
    forall k, j | 0 <= k && j == k + 1 && j < |c| ensures c[j].start == EndOf(c[k]) {
      if j < |p| {
        assert c[j] == p[j] && c[k] == p[k];
      }
    }
  }

  /** The packed blocks followed by the trailing hole: entry by entry the
      blocks of a, then the hole. */
  lemma PackedThenHole(p: seq<Block>, a: seq<Block>)
    requires Contiguous(p) && Extent(p) <= MAX_MEMORY_SIZE && |p| == |a|
    requires forall k :: 0 <= k < |p| ==>
      !p[k].isFree && p[k].size == a[k].size && p[k].processID == a[k].processID
    ensures var c := p + [Block(Extent(p), MAX_MEMORY_SIZE - Extent(p), true, NO_PROCESS)];
      WellFormed(c) && Extent(c) == MAX_MEMORY_SIZE && |c| == |a| + 1 &&
      (forall k :: 0 <= k < |a| ==>
         !c[k].isFree && c[k].size == a[k].size && c[k].processID == a[k].processID) &&
      c[|a|] == Block(Extent(p), MAX_MEMORY_SIZE - Extent(p), true, NO_PROCESS)
  {
    AppendTrailingHole(p);
    var c := p + [Block(Extent(p), MAX_MEMORY_SIZE - Extent(p), true, NO_PROCESS)];
    assert forall k :: 0 <= k < |p| ==> c[k] == p[k];
  }

  /** Compaction leaves a well-formed table of the whole address space. */
  lemma CompactWellFormed(s: seq<Block>)
    requires Contiguous(s) && Extent(s) <= MAX_MEMORY_SIZE
    ensures WellFormed(Compact(s)) && Extent(Compact(s)) == MAX_MEMORY_SIZE
  {
    PackEntries(s);
    PackContiguous(s);
    PackExtent(s);
    TotalsCoverTable(s);
    PackedThenHole(Pack(s), AllocatedBlocks(s));
  }

  /** Compaction lays out the allocated blocks back to back from address 0,
      in their order and with their sizes and owners, followed by exactly
      one hole from the allocated total up to MAX_MEMORY_SIZE: one more
      entry than there are allocated blocks. */
  lemma CompactLayout(s: seq<Block>)
    requires Contiguous(s) && Extent(s) <= MAX_MEMORY_SIZE
    ensures var c, a := Compact(s), AllocatedBlocks(s);
      |c| == |a| + 1 &&
      (forall k :: 0 <= k < |a| ==>
         !c[k].isFree && c[k].size == a[k].size && c[k].processID == a[k].processID) &&
      c[|a|] == Block(AllocatedMemory(s), MAX_MEMORY_SIZE - AllocatedMemory(s), true, NO_PROCESS)
  {
    PackEntries(s);
    PackContiguous(s);
    PackExtent(s);
    TotalsCoverTable(s);
    PackedThenHole(Pack(s), AllocatedBlocks(s));
  }

  /** Compaction keeps the allocated total and turns the rest of the address
      space into free memory. */
  lemma CompactTotals(s: seq<Block>)
    requires Contiguous(s) && Extent(s) <= MAX_MEMORY_SIZE
    ensures AllocatedMemory(Compact(s)) == AllocatedMemory(s)
    ensures FreeMemory(Compact(s)) == MAX_MEMORY_SIZE - AllocatedMemory(s)
  {
    var p := Pack(s);
    PackLayout(s);
    TotalsCoverTable(s);
    TotalsCoverTable(p);
    AppendTrailingHole(p);
  }

  /** Compacting a compacted table gives the same table. */
  lemma CompactIdempotent(s: seq<Block>)
    ensures Compact(Compact(s)) == Compact(s)
  {
    var p := Pack(s);
    var c := Compact(s);
    assert c[..|c| - 1] == p;
    assert Pack(c) == Pack(p);
    PackIdempotent(s);
  }
}
