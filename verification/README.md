# Contiguous memory allocator — block table model

A Dafny model of the block-table engine of `allocation.c`, a simulator of
contiguous memory allocation. The program keeps a static array
`memoryBlocks` whose first `totalBlocks` entries describe the address space
from 0 upwards. Each entry records a start address, a size, whether it is a
hole (`isFree`) and the process it was given to. On that table the program:

- initializes one hole `[0, size)`;
- serves a request of a process by first fit, best fit or worst fit, splitting
  the chosen hole when it is larger than the request;
- releases the first block a process holds and merges it with the holes beside it;
- compacts all allocated blocks to the bottom of memory, leaving a single hole;
- reports the allocated and free totals.

The model has two layers:

- **Pure layer** (`Blocks`, `Placement`, `Splitting`, `Coalescing`,
  `Compaction`). Every operation is a function on the value of the live prefix,
  a `seq<Block>`. The properties are lemmas about these functions:
  - the declarative selection rules;
  - what changes and what does not;
  - the table invariant `WellFormed`, which says the table is contiguous from
    address 0, ends inside the address space and never has two neighbouring
    holes;
  - the allocated and free totals;
  - the compaction layout and idempotence.
- **Imperative layer** (`Allocator.MemoryTable`). This layer is a class over an
  `array<Block>` of `MAX_MEMORY_SIZE` entries plus `totalBlocks`. Its methods
  keep the source's loops:
  - the strategy scans;
  - the insert shift;
  - the close-gap shift;
  - the copy-down of compaction;
  - the status sums.

  The scans and operations are proved to compute their pure counterparts on
  the live prefix: FindFirstFit, FindBestFit, FindWorstFit, ChooseBlock,
  PlaceAt, AllocateMemory, FindOwnedBlock, MergeNext, FreeAt, ReleaseMemory,
  SlideAllocatedDown, WriteTrailingHole, CompactMemory and DisplayStatus.
  The shift and copy helpers are specified directly on array slots or on the
  live prefix, without a pure counterpart:
  - OpenGap and MoveDown work slot by slot;
  - CloseGap removes one entry;
  - SlideStep keeps the copy-down loop's state.

  Each public operation (initialize, allocate, release, compact) is also
  proved to keep the invariant `Valid`.

`Sessions` composes the operations into runs of commands, the way the command
loop of `main` calls them. `Scenarios` works through concrete tables.

## Model

| member | source | states |
|---|---|---|
| Blocks.AllocatedMemory | allocation.c:150-156 | Computes the status loop's allocatedMemory: the sum of the sizes of the allocated blocks; its properties are in TotalsCoverTable |
| Blocks.FreeMemory | allocation.c:150-156 | Computes the status loop's freeMemory: the sum of the sizes of the holes; its properties are in TotalsCoverTable |
| Blocks.TotalsCoverTable | allocation.c:145-156 | On a contiguous table the allocated total and the free total of the status loop are both non-negative and add up exactly to the addresses the table covers |
| Placement.FirstFit | allocation.c:40-47 | The result is -1 exactly when no hole is large enough; otherwise it is the lowest index of a hole at least as large as the request |
| Placement.BestFit | allocation.c:48-56 | The result is -1 when no hole fits; otherwise it is a fitting hole no larger than any fitting hole, and every fitting hole before it is strictly larger (ties keep the earliest index, from the strict `<`) |
| Placement.WorstFit | allocation.c:57-65 | The result is -1 when no hole fits; otherwise it is a fitting hole no smaller than any fitting hole, and every fitting hole before it is strictly smaller (ties keep the earliest index, from the strict `>`) |
| Placement.Choose | allocation.c:37-72 | The chosen index is -1 or a fitting hole. It is -1 exactly when the strategy character is not 'F', 'B' or 'W', or no hole is large enough |
| Splitting.Carve | allocation.c:77-90 | Computes what the chosen hole becomes: the process's block at the hole's start, then a hole of the rest when the hole is larger than the request; its properties are in CarveCoversHole |
| Splitting.Place | allocation.c:74-90 | Computes the table with the chosen entry replaced by its carving and everything around it untouched; its properties are in PlaceKeepsTable, PlaceMovesRequest and PlaceKeepsHolesApart |
| Splitting.Allocate | allocation.c:36-93 | Computes the allocation: the unchanged table and -1 when Choose finds nothing, otherwise the placed table and the hole's start; its properties are in AllocateFailure, AllocateEffect and AllocatePreservesTable |
| Splitting.AllocateFailure | allocation.c:36-72 | On a contiguous table allocation returns -1 exactly when the strategy is unknown or no hole fits, and a failed allocation leaves the table unchanged |
| Splitting.AllocateEffect | allocation.c:74-92 | The result of a successful allocation is the chosen hole's start. Entries before it are unchanged. On a split the hole becomes (start, request, allocated, pid), a hole (start + request, size − request) follows, the table grows by one and later entries move up one index unchanged. On an exact fit only isFree and processID change |
| Splitting.CarveCoversHole | allocation.c:77-90 | The allocated block and the split-off hole exactly cover the chosen hole, the first of them is allocated, and the request moves from the free total to the allocated total |
| Splitting.PlaceKeepsTable | allocation.c:77-90 | Giving a fitting hole to a positive request keeps the table well formed over the same range |
| Splitting.PlaceMovesRequest | allocation.c:77-90 | Giving a fitting hole to a positive request moves exactly the request from the free total to the allocated total |
| Splitting.PlaceKeepsHolesApart | allocation.c:77-90 | Giving a hole to a process never leaves two neighbouring holes |
| Splitting.AllocatePreservesTable | allocation.c:77-90 | For a positive request allocation keeps the table well formed over the same range; on success the allocated total grows and the free total shrinks by exactly the request, and on failure both stay the same |
| Coalescing.OwnedBlock | allocation.c:98-99 | The result is -1 exactly when no block is allocated to the pid (a hole with a stale pid does not count); otherwise it is the lowest index of a block allocated to it |
| Coalescing.MergeWithNext | allocation.c:103-107 | Computes one merge: entry k takes the size of entry k + 1, whose entry is removed |
| Coalescing.Coalesce | allocation.c:110-116 | Computes the forward merge: entry j absorbs its successor when that successor is a hole |
| Coalescing.Free | allocation.c:100-116 | Computes freeing entry i: the flag set, a merge into a free predecessor, then the forward merge from the resulting entry; its closed form is in FreeCoalesces |
| Coalescing.Release | allocation.c:96-122 | Computes the release: -1 and the unchanged table when the pid owns no block, otherwise 0 and Free of its first block; its properties are in ReleasePreservesTable |
| Coalescing.Collapse | allocation.c:100-117 | Computes the closed form of a release: the run from lo to hi replaced by one hole spanning its addresses, with the first block's pid |
| Coalescing.MergeBack | allocation.c:100-108 | With a free predecessor, the freed block and its predecessor become one hole spanning both, before the forward merge |
| Coalescing.ForwardCollapses | allocation.c:110-117 | The forward merge absorbs a free successor, completing the collapse of the run |
| Coalescing.FreeCoalesces | allocation.c:100-117 | Freeing block i replaces the run from its free predecessor (if any) through its free successor (if any) by one hole. The hole spans exactly the run's addresses and keeps the processID of the run's first block; everything outside the run is unchanged, so up to three blocks collapse into one |
| Coalescing.CollapseKeepsHolesApart | allocation.c:100-117 | After the merge no two neighbouring blocks are holes |
| Coalescing.CollapseMovesSize | allocation.c:100-117 | Freeing an allocated block moves exactly its size from the allocated total to the free total |
| Coalescing.CollapseKeepsTable | allocation.c:100-117 | The merged table is well formed and covers the same range |
| Coalescing.ReleasePreservesTable | allocation.c:96-122 | A release keeps the table well formed over the same range. It returns -1 exactly when the pid holds no block, and then the table is unchanged. Otherwise it returns 0 and moves the released block's size from the allocated total to the free total |
| Compaction.Pack | allocation.c:127-135 | Computes what the copy-down loop leaves below freeIndex: the allocated blocks in order, each starting where the previous one ends; its properties are in PackEntries, PackContiguous, PackExtent and PackKeepsAllocated |
| Compaction.Compact | allocation.c:125-141 | Computes the compacted table: the packed blocks, then one hole from their end to MAX_MEMORY_SIZE; its properties are in CompactWellFormed, CompactLayout, CompactTotals and CompactIdempotent |
| Compaction.PackEntries | allocation.c:127-135 | The copy-down keeps exactly the allocated blocks, in order, with their sizes and pids |
| Compaction.PackContiguous | allocation.c:127-135 | The copied-down blocks lie back to back from address 0 |
| Compaction.PackExtent | allocation.c:127-135 | The copied-down blocks end exactly at the allocated total |
| Compaction.PackKeepsAllocated | allocation.c:127-135 | The copy-down keeps the allocated total |
| Compaction.PackLayout | allocation.c:127-135 | The copy-down keeps exactly the allocated blocks, in order, with their sizes and pids, laid back to back from address 0 up to the allocated total |
| Compaction.PackIdempotent | allocation.c:127-135 | Copying down an already packed table changes nothing |
| Compaction.AppendTrailingHole | allocation.c:136-140 | The trailing hole written after the packed blocks ends at MAX_MEMORY_SIZE and makes a well-formed table whose free total is the rest of the address space |
| Compaction.CompactWellFormed | allocation.c:125-141 | On a contiguous table inside the address space, compaction leaves a well-formed table that ends at MAX_MEMORY_SIZE |
| Compaction.CompactLayout | allocation.c:125-141 | The compacted table has one entry more than there are allocated blocks: the allocated blocks, in order, with their sizes and pids, then exactly one hole (allocated total, MAX_MEMORY_SIZE − allocated total) |
| Compaction.CompactTotals | allocation.c:125-141 | Compaction keeps the allocated total, and the free total becomes the rest of the address space |
| Compaction.CompactIdempotent | allocation.c:125-141 | Compacting twice gives the same table as compacting once |
| Allocator.MemoryTable.InitializeMemory | allocation.c:16-25 | The new table is valid and holds exactly one hole (0, size, free, -1) |
| Allocator.MemoryTable.FindFirstFit | allocation.c:40-47 | The scan with its early exit returns FirstFit of the live prefix |
| Allocator.MemoryTable.FindBestFit | allocation.c:48-56 | The scan with the MAX_MEMORY_SIZE + 1 sentinel and strict `<` returns BestFit of the live prefix |
| Allocator.MemoryTable.FindWorstFit | allocation.c:57-65 | The scan with the -1 sentinel and strict `>` returns WorstFit of the live prefix |
| Allocator.MemoryTable.ChooseBlock | allocation.c:37-66 | The strategy dispatch returns Choose of the live prefix, -1 for an unknown strategy |
| Allocator.MemoryTable.OpenGap | allocation.c:78-80 | The shift loop leaves the entries below the gap as they were and moves every live entry from the gap on up one slot |
| Allocator.MemoryTable.CloseGap | allocation.c:104-107 | The shift loop removes exactly the one entry and decrements totalBlocks |
| Allocator.MemoryTable.PlaceAt | allocation.c:74-90 | The live prefix becomes the chosen entry's carving spliced into the table |
| Allocator.MemoryTable.AllocateMemory | allocation.c:36-93 | The table stays valid; the new live prefix and the returned address are those of Splitting.Allocate on the old prefix |
| Allocator.MemoryTable.FindOwnedBlock | allocation.c:98-99 | The scan returns OwnedBlock of the live prefix |
| Allocator.MemoryTable.MergeNext | allocation.c:111-116 | An entry absorbs its successor's size and the successor's entry is removed |
| Allocator.MemoryTable.FreeAt | allocation.c:100-117 | The live prefix becomes Coalescing.Free of the old prefix: marked free, merged backward, then forward |
| Allocator.MemoryTable.ReleaseMemory | allocation.c:96-122 | The table stays valid; the new live prefix and the status are those of Coalescing.Release on the old prefix |
| Allocator.MemoryTable.MoveDown | allocation.c:129-132 | Entry i is copied into slot freeIndex with its start recomputed from the entry below; slots below freeIndex and above it are unchanged |
| Allocator.KeepInPlace | allocation.c:127-135 | While no hole has been passed, an allocated entry already lies where packing puts it, so the loop may leave it in place |
| Allocator.MemoryTable.SlideStep | allocation.c:127-135 | One iteration keeps the loop state: the slots below freeIndex hold the packed prefix visited so far, and the unvisited entries are still in place |
| Allocator.MemoryTable.SlideAllocatedDown | allocation.c:126-135 | The copy-down loop, which recomputes the start only of moved entries, leaves Pack of the old live prefix in the first freeIndex entries |
| Allocator.MemoryTable.WriteTrailingHole | allocation.c:136-140 | The live prefix becomes the entries below freeIndex followed by one hole from their end up to MAX_MEMORY_SIZE |
| Allocator.MemoryTable.CompactMemory | allocation.c:125-141 | The table stays valid and its live prefix becomes Compaction.Compact of the old prefix |
| Allocator.MemoryTable.DisplayStatus | allocation.c:145-156 | The two sums are the allocated and free totals of the live prefix, and they add up to the range the table covers |
| Sessions.Initial | allocation.c:20-25 | Computes the table initialize_memory(size) creates: the single hole (0, size, free, -1) |
| Sessions.Apply | allocation.c:197-230 | Computes the table after one parsed RQ, RL or C command |
| Sessions.Run | allocation.c:193-241 | Computes the table after the command loop applies a sequence of parsed commands in order; its properties are in RunKeepsTable and SessionTotals |
| Sessions.ApplyKeepsTable | allocation.c:197-230 | Every command keeps the table well formed. Requests and releases keep its range; compaction extends it to MAX_MEMORY_SIZE |
| Sessions.RunKeepsTable | allocation.c:193-241 | Any run of commands with positive request sizes keeps the table well formed. Its range is unchanged unless a compaction ran, in which case it ends at MAX_MEMORY_SIZE |
| Sessions.SessionTotals | allocation.c:189-234 | After initialize_memory(size) and any run of commands, the two status totals add up to size, or to MAX_MEMORY_SIZE once a compaction has run |
| Scenarios.StrategiesPickDifferentHoles | allocation.c:40-65 | With holes of 100, 50 and 200 and a request of 60: first fit and best fit take the 100 hole, worst fit the 200 hole, and an unknown strategy gets -1 |
| Scenarios.FirstRequest | allocation.c:74-92 | In a 300-byte space a best-fit request of 100 returns 0 and splits the initial hole |
| Scenarios.SecondRequest | allocation.c:74-92 | A second request of 100 returns 100 and leaves a 100-byte hole at 200 |
| Scenarios.ReleaseFirst | allocation.c:96-122 | Releasing process 0 returns 0 and frees its block without merging; the hole keeps processID 0 |
| Scenarios.CompactAfterRelease | allocation.c:125-141 | Compaction moves process 1 to address 0 and leaves one hole up to MAX_MEMORY_SIZE |
| Scenarios.BestFitSession | allocation.c:189-230 | The whole run of two requests, a release and a compaction gives that final table |

## Left out

- `main`'s command loop, `scanf`, and every `printf` (allocation.c:176-244, 70, 97, 149, 157-172): console I/O. `Sessions.Run` models only the sequence of calls the loop makes, with arguments already parsed.
- `get_process_id` (allocation.c:28-33): token parsing through libc `atoi`. Process IDs enter the model as already-parsed integers.
- `int` width: under the preconditions below, every address, block size and total stays between 0 and MAX_MEMORY_SIZE + 1, so none of them overflows 32 bits. `processID` and `requestSize` come from `scanf` and `atoi` and may be any `int`. They are only compared and stored, and `requestSize` enters an addition or subtraction only once it fits a hole, so it is then bounded by that hole's size. The model uses unbounded integers throughout.
- Allocator.MemoryTable.InitializeMemory: requires `size <= MAX_MEMORY_SIZE`, which `main` does not check. The best-fit sentinel `MAX_MEMORY_SIZE + 1` and the compaction hole both assume that every block fits in the address space.
- Allocator.MemoryTable.AllocateMemory: requires `requestSize > 0`, which `main` does not check. It also requires a free array slot when the allocation splits a hole, because the shift writes entry `totalBlocks`. The C code would create empty or negative blocks, or write past the array, and the model does not describe those outcomes.
- Allocator.MemoryTable.CompactMemory: requires fewer allocated blocks than array entries, because the trailing hole is written at index `freeIndex`.
- Compaction.Compact: the trailing hole ends at MAX_MEMORY_SIZE, as the code writes it (allocation.c:137). It does not end at the size given to initialize_memory, which is what a description of compaction as "merging the holes" would suggest. After a compaction the address space is therefore the whole 1 MB.
- When the allocated blocks fill the whole address space (their total is MAX_MEMORY_SIZE), compaction writes a trailing hole of size 0, as the C code does. Block sizes are therefore only required to be non-negative.
