# Memory allocation simulator: block registry engine

A Dafny model of `MemoryManager` from `memory_manager.h`, a simulator of dynamic
memory allocation over a flat address space `[0, totalMemory)`. The manager
keeps a `std::list<MemoryBlock>` in address order. Each block is free or owned
by a named process, and has a `start`, a `size` and a `used` figure. One of three
placement rules (first-fit, best-fit, worst-fit) is fixed at construction.

- `blocks.dfy` (module `Blocks`): the `MemoryBlock` record as a datatype. It also
  holds its mutators `free`, `allocate` and `increaseSize` (as `Freed`,
  `AllocatedTo`, `IncreaseSize`) and its constructor with the `used == -1`
  default (`MakeBlock`, `FreeBlock`).
- `registry.dfy` (module `Registry`): the list as a `seq<Block>` and the
  registry invariant. The blocks tile the range (`Tiles`), every block is well
  formed, and no two consecutive blocks are free. It also holds the split of
  `allocateBlock` (`Place`), the sweep of `mergeAdjacentFreeBlocks`
  (`Coalesce`), deallocation once the block is found (`Release`), and the
  lemmas that these keep the invariant.
- `placement.dfy` (module `Placement`): the three scan loops. Each is a method
  proved against an exact selection predicate that includes the tie-break.
- `fragmentation.dfy` (module `Fragmentation`): the figures of the statistics
  pass in `displayMemory`, as functions over the list, with their properties.
- `memory_manager.dfy` (module `Manager`): the class `MemoryManager`. Its fields
  are `totalMemory`, `memory` and `algorithm`, it has a `Valid()` invariant, and
  it has methods for allocation, deallocation, merging and statistics. Every
  mutating method modifies only `memory`. The module also holds the rule
  dispatch (`IsChoice`) and a worked 100-unit run (`CoalescingScenario`).

The list is a sequence and list iterators are indices. `insert` after the
chosen block and `erase` of the following block are sequence splices.
Integers are unbounded. Every address and sum stays within `totalMemory`, so
only best-fit's starting value `totalMemory + 1` can leave the 32-bit range (see Findings).

Two points where the code behaves differently from what one might expect; the
model follows the code:

- The merge is not forward-only from the freed block. The sweep starts at the
  head of the list and does not advance after a merge, so a freed block absorbs
  its free successor and is absorbed by its free predecessor.
  `Coalesce` ensures that no two consecutive blocks are free, whatever the input.
- The code does not enforce "one block per owner". `allocate` accepts a name that
  already owns a block, and `deallocate` frees the first such block in address
  order (`IsFirstOwnedBy`).

## Model

| member | source | states |
|---|---|---|
| Manager.MemoryManager.constructor | memory_manager.h:76-80 | the registry starts as exactly one free block `[0, size)` with the default used figure, the rule is the one given (first-fit by default), and the invariant holds |
| Blocks.MakeBlock | memory_manager.h:27-28 | a used figure of -1 stands for the whole block, any other is kept; a positive block with a used figure inside it, and no owner when free, is well formed |
| Blocks.FreeBlock | memory_manager.h:79 | a free block with no owner and used figure equal to its size, well formed when its size is positive; also the remainder at line 171 |
| Blocks.Block.Freed | memory_manager.h:45-48 | the block becomes free with no owner; its extent and used figure stay; well-formedness is kept |
| Blocks.Block.AllocatedTo | memory_manager.h:57-61 | the block becomes owned by the process with the given used figure over the same extent; well formed when the used figure fits; freeing it again gives back the free block it came from, used figure aside |
| Blocks.Block.IncreaseSize | memory_manager.h:64-66 | the start stays and the end moves out by the added units; status, owner and used figure stay; well-formedness is kept for a non-negative addition |
| Registry.InitialRegistry | memory_manager.h:76-80 | a single free block over `[0, total)` satisfies the registry invariant |
| Manager.MemoryManager.AllocateFully | memory_manager.h:83-85 | allocation without a used figure is allocation with `used == size` |
| Manager.MemoryManager.Allocate | memory_manager.h:88-99 | succeeds exactly when some free block has at least `size` units; on failure the list is unchanged; on success the list is `Place` at the index the active rule picks; the invariant is kept |
| Manager.IsChoice | memory_manager.h:88-99 | the block the dispatched rule picks (best-fit from `totalMemory + 1`) is a free block that fits the request |
| Manager.ChoiceUnique | memory_manager.h:88-99 | each rule picks at most one block: two blocks that meet the rule's choice are the same |
| Manager.MemoryManager.AllocateFirstFit | memory_manager.h:103-111 | succeeds iff some block fits; on success the earliest fitting block is split or taken; on failure nothing changes |
| Manager.MemoryManager.AllocateBestFit | memory_manager.h:114-132 | as first-fit, but for the earliest smallest fitting block; fails only when no block fits |
| Manager.MemoryManager.AllocateWorstFit | memory_manager.h:135-153 | as first-fit, but for the earliest largest fitting block; fails only when no block fits |
| Placement.ScanFirstFit | memory_manager.h:103-111 | returns the earliest free block with `size >= request`, or none exactly when no block fits |
| Placement.ScanBestFit | memory_manager.h:114-131 | returns a fitting block below the starting minimum, of minimal size, with every earlier fitting block strictly larger; none only when every fitting block is at least the starting minimum |
| Placement.ScanWorstFit | memory_manager.h:135-152 | returns a fitting block above -1, of maximal size, with every earlier fitting block strictly smaller; none only when no fitting block exceeds -1 |
| Placement.BestFitUnique | memory_manager.h:118-125 | the strict `<` makes the best-fit choice unique |
| Placement.WorstFitUnique | memory_manager.h:139-146 | the strict `>` makes the worst-fit choice unique |
| Placement.SentinelsInert | memory_manager.h:114-146 | in a registry, every block that fits a positive request has a size strictly between -1 and `totalMemory + 1`, so neither starting value excludes a block |
| Placement.RulesCompared | memory_manager.h:103-153 | the best-fit block is no larger, and the worst-fit block no smaller, than the first-fit block, and neither comes before it |
| Placement.RulesExample | memory_manager.h:103-153 | free blocks of 10, 4 and 20 and a request of 5: first-fit and best-fit pick the 10, worst-fit picks the 20 |
| Placement.BestFitOverflowAtIntMax | memory_manager.h:116 | with 32-bit wrap-around and `totalMemory == INT_MAX`, best-fit picks no block of a one-block registry that first-fit can use |
| Placement.BestFitLimitExcludesNothing | memory_manager.h:114-131 | with a starting minimum above `totalMemory`, best-fit picks a block of a registry whenever some block fits |
| Manager.MemoryManager.AllocateBlock | memory_manager.h:156-173 | the list becomes `Place(old list, i, ...)` and the invariant is kept |
| Registry.Place | memory_manager.h:156-173 | exact fit: the block count is unchanged, block `i` is owned by the process with the given used figure, and no other block changes. Larger block: block `i` becomes owned `[start, start+size)`, a free `[start+size, old size - size)` is inserted right after it, and the blocks before and after are unchanged |
| Registry.PlaceKeepsRegistry | memory_manager.h:157-172 | allocating from a fitting free block keeps the tiling of `[0, totalMemory)`, well-formedness and no-adjacent-free; the new owned block is `[start, start+size)`; covered units unchanged |
| Fragmentation.PlaceMovesUnits | memory_manager.h:156-173 | an allocation moves `size` units from free to reserved and adds `used` to the used figure |
| Manager.MemoryManager.Deallocate | memory_manager.h:178-189 | succeeds iff some block is owned by the process; on failure the list is identical; on success it is `Release` of the first such block, and the invariant (including no adjacent free blocks) holds |
| Registry.Release | memory_manager.h:180-184 | freeing block `i` and sweeping leaves no two consecutive free blocks, never lengthens the list, keeps the first start, and keeps the first block's status when `i` is not the first |
| Registry.ReleaseKeepsRegistry | memory_manager.h:178-189 | freeing any block of a registry and sweeping gives a registry over the same range with the same covered units and only existing start addresses |
| Fragmentation.ReleaseMovesUnits | memory_manager.h:178-206 | a deallocation moves the block's units from reserved to free and removes its used figure |
| Registry.PlaceThenRelease | memory_manager.h:156-206 | allocating to a process that owns nothing and then deallocating it finds that very block and restores the previous layout |
| Manager.CoalescingScenario | memory_manager.h:156-206 | in 100 units, allocating A 30, B 20, C 10 by first-fit, then deallocating B, A, C, leaves one free block `[0, 100)` |
| Manager.MemoryManager.MergeAdjacentFreeBlocks | memory_manager.h:192-206 | the in-place sweep leaves the list equal to `Coalesce` of the old list, and a manager that satisfied the invariant still does |
| Registry.Coalesce | memory_manager.h:192-206 | after the sweep no two consecutive blocks are free; the list never grows; the first block keeps its start and free/owned status |
| Registry.SweepMerge | memory_manager.h:198-201 | absorbing the free successor at position `i` keeps the sweep's remaining work unchanged |
| Registry.SweepAdvance | memory_manager.h:202-204 | moving on past a block that has no free successor keeps the sweep's remaining work unchanged |
| Registry.CoalesceTiles | memory_manager.h:192-206 | the sweep keeps the tiling of the same range |
| Registry.CoalesceSum | memory_manager.h:192-206 | the sweep keeps the sum of the block sizes |
| Registry.CoalesceStarts | memory_manager.h:192-206 | every block start after the sweep was a block start before |
| Registry.CoalesceOwned | memory_manager.h:192-206 | the sweep leaves the owned blocks, and their order, untouched |
| Registry.CoalesceWellFormed | memory_manager.h:192-206 | the sweep keeps every block well formed |
| Registry.CoalesceFixpoint | memory_manager.h:192-206 | a list with no two consecutive free blocks is left unchanged |
| Registry.CoalesceIdempotent | memory_manager.h:192-206 | a second sweep changes nothing |
| Registry.CoalescePrefix | memory_manager.h:192-206 | the sweep passes unchanged over a prefix with no adjacent free blocks that does not end in a free block before a free one |
| Fragmentation.CoalesceKeepsUsage | memory_manager.h:192-206 | the sweep keeps the reserved and used figures |
| Manager.MemoryManager.Statistics | memory_manager.h:243-261 | the loop yields the reserved, used, free and largest-free figures of the list; internal fragmentation is reserved minus used and never negative; external fragmentation is `max(totalFree - largestFree, 0)`, which equals `totalFree - largestFree`; reserved plus free is `totalMemory`; the largest free block is 0 iff no block is free |
| Fragmentation.ExternalFrag | memory_manager.h:260-261 | the result is non-negative, at least `totalFree - largestFree`, and equal to it or to 0 |
| Fragmentation.LargestFreeIsMax | memory_manager.h:247-257 | the running maximum is at least every free block's size, is attained by a free block when positive, and is 0 when no block is free |
| Fragmentation.ReservedPlusFree | memory_manager.h:249-258 | reserved plus free units equal the units the list covers |
| Fragmentation.ReservedPlusFreeIsTotal | memory_manager.h:243-258 | for a list tiling `[0, totalMemory)`, reserved plus free units equal `totalMemory` |
| Fragmentation.InternalFragIsDifference | memory_manager.h:243-253 | the internal fragmentation accumulator equals reserved minus used, and is non-negative when every used figure lies within its block |
| Fragmentation.LargestWithinTotalFree | memory_manager.h:255-261 | the largest free block holds at most all free units, so the clamp to 0 never applies |
| Fragmentation.ExampleFigures | memory_manager.h:243-261 | owned 10/6 and 5/5 with free 3 and 7 give internal 4, free 10, largest 7, external 3 |

## Left out

- Printing: the tables, the proportional map and the formatting of `displayMemory`
  and `displayMemoryCompact` produce output only.
- The percentage figures `100.0 * x / totalMemory` are floating-point display values.
- `getAlgorithmName` is a string lookup for display.
- main.cpp is not part of this model: file and console input, command parsing,
  the menu and `stoi` only call `allocate`, `deallocate` and `displayMemory`.
- The `default: return false` branch of the `allocate` switch cannot be reached:
  `Algorithm` has exactly the three values.
- Manager.MemoryManager.Allocate: requires `size > 0` and `0 <= used <= size`,
  the caller's contract for a request. The code does not check these. With
  `size == 0` the split path would create a zero-size owned block.
- Manager.MemoryManager.constructor: requires `size > 0`, a positive memory
  size; the code accepts any `int`.
- Registry.PlaceThenRelease: the layout is restored, but the free block that
  absorbs the remainder keeps the released block's used figure. A free block's
  used figure has no meaning and is not part of `SameLayout`.
- 32-bit `int` width is modelled only where it can matter, at best-fit's
  starting value; everywhere else the values are bounded by `totalMemory`.
- Manager.MemoryManager.AllocateBestFit: starts the running minimum at the
  unbounded `totalMemory + 1`, the corrected value from Findings, as does
  `Manager.IsChoice`; the wrap at `INT_MAX` is shown only by
  `Placement.BestFitOverflowAtIntMax`.
- Pointers into the list, and their invalidation by `erase`, are not modelled;
  positions are indices into the sequence.

## Findings

| source | as written | input that shows it | evidently intended | confidence | as-written member | corrected member |
|---|---|---|---|---|---|---|
| memory_manager.h:116 | best-fit starts its running minimum at `totalMemory + 1` computed in `int` | memory size 2147483647, best-fit, then `A p 10` | the starting value exceeds every block size, so best-fit succeeds whenever a block fits | low: not executed; signed overflow is undefined behaviour, and two's-complement wrap-around is assumed | Placement.BestFitOverflowAtIntMax | Placement.BestFitLimitExcludesNothing |
