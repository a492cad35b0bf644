/** Runs of the allocator: the table after initialize_memory(size) and a
    sequence of requests, releases and compactions, and what every such run
    keeps. */
module Sessions {
  import opened Blocks
  import Splitting
  import Coalescing
  import Compaction

  /** One call into the block table, with its arguments already parsed. */
  datatype Command =
    | AllocateCommand(requestSize: int, processID: int, strategy: char)
    | ReleaseCommand(processID: int)
    | CompactCommand

  /** The table initialize_memory(size) creates: one hole over [0, size). */
  function Initial(size: int): seq<Block> {
    [Block(0, size, true, NO_PROCESS)]
  }

  /** The table after one command. */
  function Apply(s: seq<Block>, c: Command): seq<Block> {
    match c
    case AllocateCommand(requestSize, processID, strategy) =>
      Splitting.Allocate(s, requestSize, processID, strategy).table
    case ReleaseCommand(processID) => Coalescing.Release(s, processID).table
    case CompactCommand => Compaction.Compact(s)
  }

  /** The table after the commands, applied in order. */
  function Run(s: seq<Block>, cmds: seq<Command>): seq<Block>
    decreases |cmds|
  {
    if |cmds| == 0 then s else Run(Apply(s, cmds[0]), cmds[1..])
  }

  /** The commands the dispatcher can pass: every request asks for a
      positive size. */
  ghost predicate Admissible(cmds: seq<Command>) {
    forall k :: 0 <= k < |cmds| && cmds[k].AllocateCommand? ==> cmds[k].requestSize > 0
  }

  /** Every command keeps the table well formed; requests and releases keep
      its range, and compaction extends it to MAX_MEMORY_SIZE. */
  lemma ApplyKeepsTable(s: seq<Block>, c: Command)
    requires WellFormed(s)
    requires c.AllocateCommand? ==> c.requestSize > 0
    ensures WellFormed(Apply(s, c))
    ensures Extent(Apply(s, c)) == if c.CompactCommand? then MAX_MEMORY_SIZE else Extent(s)
  {
    match c
    case AllocateCommand(requestSize, processID, strategy) =>
      Splitting.AllocatePreservesTable(s, requestSize, processID, strategy);
    case ReleaseCommand(processID) =>
      Coalescing.ReleasePreservesTable(s, processID);
    case CompactCommand =>
      Compaction.CompactWellFormed(s);
  }

  /** A run keeps the table well formed; it still ends where it started
      unless a compaction moved its end to MAX_MEMORY_SIZE. */
  lemma {:induction false} RunKeepsTable(s: seq<Block>, cmds: seq<Command>)
    requires WellFormed(s) && Admissible(cmds)
    decreases |cmds|
    ensures WellFormed(Run(s, cmds))
    ensures Extent(Run(s, cmds)) ==
      if exists k :: 0 <= k < |cmds| && cmds[k].CompactCommand? then MAX_MEMORY_SIZE else Extent(s)
  {
    if |cmds| > 0 {
      ApplyKeepsTable(s, cmds[0]);
      var rest := cmds[1..];
      assert Admissible(rest) by {
        forall k | 0 <= k < |rest| && rest[k].AllocateCommand? ensures rest[k].requestSize > 0 {
          assert rest[k] == cmds[k + 1];
        }
      }
      RunKeepsTable(Apply(s, cmds[0]), rest);
      assert (exists k :: 0 <= k < |cmds| && cmds[k].CompactCommand?)
         <==> cmds[0].CompactCommand? || exists k :: 0 <= k < |rest| && rest[k].CompactCommand? by {
        if exists k :: 0 <= k < |cmds| && cmds[k].CompactCommand? {
          var k :| 0 <= k < |cmds| && cmds[k].CompactCommand?;
          if k > 0 { assert rest[k - 1] == cmds[k]; }
        }
        if exists k :: 0 <= k < |rest| && rest[k].CompactCommand? {
          var k :| 0 <= k < |rest| && rest[k].CompactCommand?;
          assert cmds[k + 1] == rest[k];
        }
      }
    }
  }

  /** After initialize_memory(size) and any run of requests and releases,
      the allocated and free totals of the status report add up to size;
      once a compaction has run they add up to MAX_MEMORY_SIZE. */
  lemma SessionTotals(size: int, cmds: seq<Command>)
    requires 0 < size <= MAX_MEMORY_SIZE && Admissible(cmds)
    ensures var t := Run(Initial(size), cmds);
      AllocatedMemory(t) + FreeMemory(t) ==
        if exists k :: 0 <= k < |cmds| && cmds[k].CompactCommand? then MAX_MEMORY_SIZE else size
  {
    RunKeepsTable(Initial(size), cmds);
    TotalsCoverTable(Run(Initial(size), cmds));
  }
}
