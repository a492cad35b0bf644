/** The three placement strategies of allocate_memory: which hole a request
    of a given size is given. Each rule is stated declaratively (IsFirstFit,
    IsBestFit, IsWorstFit) and computed by a left-to-right scan of the
    table, the order in which the source visits the blocks. */
module Placement {
  import opened Blocks

  /** A block can serve a request when it is a hole at least as large. */
  predicate Fits(b: Block, requestSize: int) {
    b.isFree && b.size >= requestSize
  }

  ghost predicate NoneFits(s: seq<Block>, requestSize: int) {
    forall j :: 0 <= j < |s| ==> !Fits(s[j], requestSize)
  }

  /** r is the lowest index that fits, or -1 when no block fits. */
  ghost predicate IsFirstFit(s: seq<Block>, requestSize: int, r: int) {
    if r == -1 then NoneFits(s, requestSize)
    else
      0 <= r < |s| && Fits(s[r], requestSize) &&
      forall j :: 0 <= j < r ==> !Fits(s[j], requestSize)
  }

  /** r fits and no fitting block is smaller; every fitting block before r is
      strictly larger, so the earliest of equally small holes wins. */
  ghost predicate IsBestFit(s: seq<Block>, requestSize: int, r: int) {
    if r == -1 then NoneFits(s, requestSize)
    else
      0 <= r < |s| && Fits(s[r], requestSize) &&
      (forall j :: 0 <= j < |s| && Fits(s[j], requestSize) ==> s[r].size <= s[j].size) &&
      (forall j :: 0 <= j < r && Fits(s[j], requestSize) ==> s[j].size > s[r].size)
  }

  /** r fits and no fitting block is larger; every fitting block before r is
      strictly smaller, so the earliest of equally large holes wins. */
  ghost predicate IsWorstFit(s: seq<Block>, requestSize: int, r: int) {
    if r == -1 then NoneFits(s, requestSize)
    else
      0 <= r < |s| && Fits(s[r], requestSize) &&
      (forall j :: 0 <= j < |s| && Fits(s[j], requestSize) ==> s[r].size >= s[j].size) &&
      (forall j :: 0 <= j < r && Fits(s[j], requestSize) ==> s[j].size < s[r].size)
  }

  /** First fit: the scan stops at the first hole that is large enough. */
  function FirstFit(s: seq<Block>, requestSize: int): (r: int)
    ensures IsFirstFit(s, requestSize, r)
  {
    if |s| == 0 then -1
    else
      var r := FirstFit(s[..|s| - 1], requestSize);
      if r != -1 then r
      else if Fits(s[|s| - 1], requestSize) then |s| - 1
      else -1
  }

  /** Best fit: a later hole replaces the current choice only when it is
      strictly smaller. */
  function BestFit(s: seq<Block>, requestSize: int): (r: int)
    ensures IsBestFit(s, requestSize, r)
  {
    if |s| == 0 then -1
    else
      var r := BestFit(s[..|s| - 1], requestSize);
      var b := s[|s| - 1];
      if Fits(b, requestSize) && (r == -1 || b.size < s[r].size) then |s| - 1
      else r
  }

  /** Worst fit: a later hole replaces the current choice only when it is
      strictly larger. */
  function WorstFit(s: seq<Block>, requestSize: int): (r: int)
    ensures IsWorstFit(s, requestSize, r)
  {
    if |s| == 0 then -1
    else
      var r := WorstFit(s[..|s| - 1], requestSize);
      var b := s[|s| - 1];
      if Fits(b, requestSize) && (r == -1 || b.size > s[r].size) then |s| - 1
      else r
  }

  /** The block a request is given under strategy 'F', 'B' or 'W'; -1 when no
      hole is large enough or the strategy character is none of the three. */
  function Choose(s: seq<Block>, requestSize: int, strategy: char): (r: int)
    ensures r == -1 || (0 <= r < |s| && Fits(s[r], requestSize))
    ensures r == -1 <==> strategy !in {'F', 'B', 'W'} || NoneFits(s, requestSize)
  {
    if strategy == 'F' then FirstFit(s, requestSize)
    else if strategy == 'B' then BestFit(s, requestSize)
    else if strategy == 'W' then WorstFit(s, requestSize)
    else -1
  }

  /** The first-fit rule picks exactly one index: whatever satisfies it is
      the index the scan computes. */
  lemma FirstFitUnique(s: seq<Block>, requestSize: int, r: int)
    requires IsFirstFit(s, requestSize, r)
    ensures r == FirstFit(s, requestSize)
  {
  }
}
