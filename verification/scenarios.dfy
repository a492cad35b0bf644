/** Worked examples of the block table: the three strategies on one table,
    and a best-fit session of two requests, a release and a compaction. */
module Scenarios {
  import opened Blocks
  import opened Placement
  import opened Splitting
  import opened Coalescing
  import opened Compaction
  import opened Sessions

  /** Holes of 100, 50 and 200 bytes, kept apart by two allocated blocks.
      A request for 60 bytes goes to the 100-byte hole under first fit and
      under best fit (the 50-byte hole is too small), and to the 200-byte
      hole under worst fit; an unknown strategy finds nothing. */
  lemma StrategiesPickDifferentHoles()
    ensures var s := [Block(0, 100, true, NO_PROCESS), Block(100, 10, false, 1),
                      Block(110, 50, true, NO_PROCESS), Block(160, 10, false, 2),
                      Block(170, 200, true, NO_PROCESS)];
      Choose(s, 60, 'F') == 0 && Choose(s, 60, 'B') == 0 &&
      Choose(s, 60, 'W') == 4 && Choose(s, 60, 'X') == -1
  {
    var s := [Block(0, 100, true, NO_PROCESS), Block(100, 10, false, 1),
              Block(110, 50, true, NO_PROCESS), Block(160, 10, false, 2),
              Block(170, 200, true, NO_PROCESS)];
    assert IsFirstFit(s, 60, 0);
    assert IsBestFit(s, 60, 0) by {
      assert forall j :: 0 <= j < |s| && Fits(s[j], 60) ==> j == 0 || j == 4;
    }
    assert IsWorstFit(s, 60, 4) by {
      assert forall j :: 0 <= j < |s| && Fits(s[j], 60) ==> j == 0 || j == 4;
    }
  }

  /** The first best-fit request of 100 bytes in a 300-byte space takes
      address 0 and splits the initial hole. */
  lemma FirstRequest()
    ensures Allocate(Initial(300), 100, 0, 'B') ==
      Step([Block(0, 100, false, 0), Block(100, 200, true, NO_PROCESS)], 0)
  {
    BestFitUniqueHole(Initial(300), 100, 0);
  }

  /** The second request of 100 bytes takes address 100 and splits the
      remaining hole. */
  lemma SecondRequest()
    ensures Allocate([Block(0, 100, false, 0), Block(100, 200, true, NO_PROCESS)], 100, 1, 'B') ==
      Step([Block(0, 100, false, 0), Block(100, 100, false, 1), Block(200, 100, true, NO_PROCESS)], 100)
  {
    BestFitUniqueHole([Block(0, 100, false, 0), Block(100, 200, true, NO_PROCESS)], 100, 1);
  }

  /** Releasing process 0 frees its block without merging (its neighbour is
      allocated); the freed block keeps processID 0 although it is a hole. */
  lemma ReleaseFirst()
    ensures Release([Block(0, 100, false, 0), Block(100, 100, false, 1), Block(200, 100, true, NO_PROCESS)], 0) ==
      Step([Block(0, 100, true, 0), Block(100, 100, false, 1), Block(200, 100, true, NO_PROCESS)], 0)
  {
    var s := [Block(0, 100, false, 0), Block(100, 100, false, 1), Block(200, 100, true, NO_PROCESS)];
    OwnedBlockUnique(s, 0, 0);
  }

  /** Compaction then moves the block of process 1 to address 0 and leaves a
      hole up to MAX_MEMORY_SIZE, not up to 300. */
  lemma CompactAfterRelease()
    ensures Compact([Block(0, 100, true, 0), Block(100, 100, false, 1), Block(200, 100, true, NO_PROCESS)]) ==
      [Block(0, 100, false, 1), Block(100, MAX_MEMORY_SIZE - 100, true, NO_PROCESS)]
  {
    var s := [Block(0, 100, true, 0), Block(100, 100, false, 1), Block(200, 100, true, NO_PROCESS)];
    PackStep(s, 0);
    PackStep(s, 1);
    PackStep(s, 2);
    assert s[..0] == [] && s[..3] == s;
  }

  /** The whole session, as one run of commands. */
  lemma BestFitSession()
    ensures Run(Initial(300), [AllocateCommand(100, 0, 'B'), AllocateCommand(100, 1, 'B'),
                               ReleaseCommand(0), CompactCommand]) ==
      [Block(0, 100, false, 1), Block(100, MAX_MEMORY_SIZE - 100, true, NO_PROCESS)]
  {
    var cmds := [AllocateCommand(100, 0, 'B'), AllocateCommand(100, 1, 'B'), ReleaseCommand(0), CompactCommand];
    FirstRequest();
    SecondRequest();
    ReleaseFirst();
    CompactAfterRelease();
    assert cmds[1..][1..][1..][1..] == [];
  }

  /** When the only hole of a table is large enough it is the best fit. */
  lemma BestFitUniqueHole(s: seq<Block>, requestSize: int, h: int)
    requires 0 <= h < |s| && Fits(s[h], requestSize)
    requires forall j :: 0 <= j < |s| && j != h ==> !s[j].isFree
    ensures BestFit(s, requestSize) == h
  {
    assert IsBestFit(s, requestSize, h);
    var r := BestFit(s, requestSize);
    assert r == h;
  }
}
