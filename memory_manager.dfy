/**
 * `MemoryManager`: a registry of blocks over [0, totalMemory) with one
 * placement rule chosen at construction.  Allocation picks a free block with
 * the rule and splits it; deallocation frees the first block of the process
 * and sweeps adjacent free blocks together.
 */
module Manager {
  import opened Wrappers
  import opened Blocks
  import opened Registry
  import opened Placement
  import opened Fragmentation

  /** `AllocationAlgorithm`. */
  datatype Algorithm = FirstFit | BestFit | WorstFit

  /** `i` is the block the rule `algorithm` picks for the request; best-fit
      starts its running minimum at `totalMemory + 1`. */
  predicate IsChoice(algorithm: Algorithm, s: seq<Block>, request: int, totalMemory: int, i: int)
    ensures IsChoice(algorithm, s, request, totalMemory, i) ==> 0 <= i < |s| && Fits(s[i], request)
  {
    match algorithm
    case FirstFit => IsFirstFit(s, request, i)
    case BestFit => IsBestFit(s, request, totalMemory + 1, i)
    case WorstFit => IsWorstFit(s, request, i)
  }

  /** Each rule leaves exactly one candidate: two blocks it picks are the same block. */
  lemma ChoiceUnique(algorithm: Algorithm, s: seq<Block>, request: int, totalMemory: int, i: int, j: int)
    requires IsChoice(algorithm, s, request, totalMemory, i)
    requires IsChoice(algorithm, s, request, totalMemory, j)
    ensures i == j
  {
    match algorithm
    case FirstFit =>
    case BestFit => BestFitUnique(s, request, totalMemory + 1, i, j);
    case WorstFit => WorstFitUnique(s, request, i, j);
  }

  class MemoryManager {
    var totalMemory: int
    var memory: seq<Block>
    var algorithm: Algorithm

    /** The blocks tile [0, totalMemory), are well formed, and no two
        consecutive ones are free. */
    ghost predicate Valid()
      reads this
    {
      totalMemory > 0 && IsRegistry(memory, totalMemory)
    }

    /** All memory starts out as one free block. */
    constructor (size: int, algo: Algorithm := FirstFit)
      requires size > 0
      ensures Valid()
      ensures totalMemory == size && algorithm == algo
      ensures memory == [FreeBlock(0, size)]
    {
      totalMemory := size;
      algorithm := algo;
      memory := [FreeBlock(0, size)];
      new;
      InitialRegistry(size);
    }

    /** `allocate(process, size)`: the whole reservation is in use. */
    method AllocateFully(process: string, size: int) returns (ok: bool)
      requires Valid() && size > 0
      modifies this`memory
      ensures Valid()
      ensures ok <==> !NoFit(old(memory), size)
      ensures !ok ==> memory == old(memory)
      ensures ok ==> exists i :: IsChoice(algorithm, old(memory), size, totalMemory, i) &&
                                memory == Place(old(memory), i, process, size, size)
    {
      ok := Allocate(process, size, size);
    }

    /** `allocate(process, size, used)`: dispatch on the rule.  It succeeds
        exactly when some free block is large enough; on failure nothing changes. */
    method Allocate(process: string, size: int, used: int) returns (ok: bool)
      requires Valid() && size > 0 && 0 <= used <= size
      modifies this`memory
      ensures Valid()
      ensures ok <==> !NoFit(old(memory), size)
      ensures !ok ==> memory == old(memory)
      ensures ok ==> exists i :: IsChoice(algorithm, old(memory), size, totalMemory, i) &&
                                memory == Place(old(memory), i, process, size, used)
    {
      match algorithm
      case FirstFit => ok := AllocateFirstFit(process, size, used);
      case BestFit => ok := AllocateBestFit(process, size, used);
      case WorstFit => ok := AllocateWorstFit(process, size, used);
    }

    method AllocateFirstFit(process: string, size: int, used: int) returns (ok: bool)
      requires Valid() && size > 0 && 0 <= used <= size
      modifies this`memory
      ensures Valid()
      ensures ok <==> !NoFit(old(memory), size)
      ensures !ok ==> memory == old(memory)
      ensures ok ==> exists i :: IsFirstFit(old(memory), size, i) &&
                                memory == Place(old(memory), i, process, size, used)
    {
      var r := ScanFirstFit(memory, size);
      if r.None? {
        return false;
      }
      AllocateBlock(r.value, process, size, used);
      return true;
    }

    method AllocateBestFit(process: string, size: int, used: int) returns (ok: bool)
      requires Valid() && size > 0 && 0 <= used <= size
      modifies this`memory
      ensures Valid()
      ensures ok <==> !NoFit(old(memory), size)
      ensures !ok ==> memory == old(memory)
      ensures ok ==> exists i :: IsBestFit(old(memory), size, totalMemory + 1, i) &&
                                memory == Place(old(memory), i, process, size, used)
    {
      var r := ScanBestFit(memory, size, totalMemory + 1);
      if r.None? {
        SentinelsInert(memory, totalMemory, size);
        return false;
      }
      AllocateBlock(r.value, process, size, used);
      return true;
    }

    method AllocateWorstFit(process: string, size: int, used: int) returns (ok: bool)
      requires Valid() && size > 0 && 0 <= used <= size
      modifies this`memory
      ensures Valid()
      ensures ok <==> !NoFit(old(memory), size)
      ensures !ok ==> memory == old(memory)
      ensures ok ==> exists i :: IsWorstFit(old(memory), size, i) &&
                                memory == Place(old(memory), i, process, size, used)
    {
      var r := ScanWorstFit(memory, size);
      if r.None? {
        SentinelsInert(memory, totalMemory, size);
        return false;
      }
      AllocateBlock(r.value, process, size, used);
      return true;
    }

    /** `allocateBlock`: the chosen block is taken whole or split in two. */
    method AllocateBlock(i: nat, process: string, size: int, used: int)
      requires Valid() && i < |memory| && memory[i].isFree && memory[i].size >= size > 0
      requires 0 <= used <= size
      modifies this`memory
      ensures Valid()
      ensures memory == Place(old(memory), i, process, size, used)
    {
      ghost var before := memory;
      if memory[i].size == size {
        memory := memory[i := memory[i].AllocatedTo(process, used)];
        memory := memory[i := memory[i].(used := used)];
      } else {
        var remainingSize := memory[i].size - size;
        var startPos := memory[i].start;
        memory := memory[i := MakeBlock(startPos, size, process, false, used)];
        memory := memory[..i + 1] + [FreeBlock(startPos + size, remainingSize)] + memory[i + 1..];
      }
      assert memory == Place(before, i, process, size, used);
      PlaceKeepsRegistry(before, totalMemory, i, process, size, used);
    }

    /** `deallocate(process)`: frees the first block, in address order, owned by
        `process` and merges free neighbours; fails and changes nothing when
        `process` owns no block. */
    method Deallocate(process: string) returns (ok: bool)
      requires Valid()
      modifies this`memory
      ensures Valid()
      ensures ok <==> exists k :: 0 <= k < |old(memory)| && old(memory)[k].OwnedBy(process)
      ensures !ok ==> memory == old(memory)
      ensures ok ==> exists i :: IsFirstOwnedBy(old(memory), process, i) &&
                                memory == Release(old(memory), i)
    {
      var i := 0;
      while i < |memory|
        invariant 0 <= i <= |memory|
        invariant memory == old(memory)
        invariant forall k :: 0 <= k < i ==> !memory[k].OwnedBy(process)
      {
        if !memory[i].isFree && memory[i].process == process {
          ghost var before := memory;
          memory := memory[i := memory[i].Freed()];
          MergeAdjacentFreeBlocks();
          ReleaseKeepsRegistry(before, totalMemory, i);
          assert IsFirstOwnedBy(before, process, i);
          return true;
        }
        i := i + 1;
      }
      return false;
    }

    /** `mergeAdjacentFreeBlocks`: the sweep from the head that absorbs each
        free successor of a free block and only moves on when there is none. */
    method MergeAdjacentFreeBlocks()
      modifies this`memory
      ensures memory == Coalesce(old(memory))
      ensures old(Valid()) ==> Valid()
    {
      ghost var swept := Coalesce(memory);
      var i := 0;
      while i < |memory|
        invariant 0 <= i <= |memory|
        invariant swept == memory[..i] + Coalesce(memory[i..])
        decreases |memory| - i
      {
        ghost var before := memory;
        if i + 1 < |memory| && memory[i].isFree && memory[i + 1].isFree {
          SweepMerge(before, i);
          memory := memory[i := memory[i].IncreaseSize(memory[i + 1].size)];
          memory := memory[..i + 1] + memory[i + 2..];
        } else {
          SweepAdvance(before, i);
          i := i + 1;
        }
      }
      if old(IsRegistry(memory, totalMemory)) {
        SweepKeepsRegistry(old(memory), totalMemory);
      }
    }

    /** The statistics pass of `displayMemory`: one accumulator loop over the blocks. */
    method Statistics() returns (st: Stats)
      requires Valid()
      ensures st.reservedUsed == ReservedUsed(memory) && st.actualUsed == ActualUsed(memory)
      ensures st.totalFree == TotalFree(memory) && st.largestFree == LargestFree(memory)
      ensures st.internalFrag == st.reservedUsed - st.actualUsed && st.internalFrag >= 0
      ensures st.externalFrag == ExternalFrag(st.totalFree, st.largestFree)
      ensures st.externalFrag == st.totalFree - st.largestFree
      ensures st.reservedUsed + st.totalFree == totalMemory
      ensures st.largestFree == 0 <==> forall k :: 0 <= k < |memory| ==> !memory[k].isFree
    {
      var reservedUsed, actualUsed, internalFrag, totalFree, largestFree := 0, 0, 0, 0, 0;
      var i := 0;
      while i < |memory|
        invariant 0 <= i <= |memory|
        invariant reservedUsed == ReservedUsed(memory[..i])
        invariant actualUsed == ActualUsed(memory[..i])
        invariant internalFrag == InternalFrag(memory[..i])
        invariant totalFree == TotalFree(memory[..i])
        invariant largestFree == LargestFree(memory[..i])
      {
        var block := memory[i];
        assert memory[..i + 1][..i] == memory[..i];
        if !block.isFree {
          reservedUsed := reservedUsed + block.size;
          actualUsed := actualUsed + block.used;
          internalFrag := internalFrag + (block.size - block.used);
        } else {
          totalFree := totalFree + block.size;
          if block.size > largestFree {
            largestFree := block.size;
          }
        }
        i := i + 1;
      }
      assert memory[..i] == memory;
      var externalFrag := totalFree - largestFree;
      if externalFrag < 0 {
        externalFrag := 0;
      }
      st := Stats(reservedUsed, actualUsed, internalFrag, totalFree, largestFree, externalFrag);
      InternalFragIsDifference(memory);
      LargestWithinTotalFree(memory);
      ReservedPlusFreeIsTotal(memory, totalMemory);
      LargestFreeIsMax(memory);
    }
  }

  // ---------------------------------------------------------------------------
  // A worked scenario

  /** In 100 units under first-fit, A takes 30, B 20 and C 10; deallocating
      B, then A, then C leaves a single free block over all 100 units. */
  lemma CoalescingScenario()
    ensures
      var s0 := [FreeBlock(0, 100)];
      var s1 := Place(s0, 0, "A", 30, 30);
      var s2 := Place(s1, 1, "B", 20, 20);
      var s3 := Place(s2, 2, "C", 10, 10);
      var s4 := Release(s3, 1);
      var s5 := Release(s4, 0);
      IsFirstFit(s0, 30, 0) && IsFirstFit(s1, 20, 1) && IsFirstFit(s2, 10, 2) &&
      IsFirstOwnedBy(s3, "B", 1) && IsFirstOwnedBy(s4, "A", 0) && IsFirstOwnedBy(s5, "C", 1) &&
      Release(s5, 1) == [Block(0, 100, 30, "", true)]
  {
    var a, c, rest := ScenarioA, ScenarioC, ScenarioRest;
    var s2 := Place(Place([FreeBlock(0, 100)], 0, "A", 30, 30), 1, "B", 20, 20);
    ScenarioAllocations();
    var s3 := [a, ScenarioB, c, rest];
    assert Place(s2, 2, "C", 10, 10) == s3;
    assert IsFirstOwnedBy(s3, "B", 1);
    ScenarioReleaseB();
    var s4 := [a, Block(30, 20, 20, "", true), c, rest];
    assert IsFirstOwnedBy(s4, "A", 0);
    ScenarioReleaseA();
    var s5 := [Block(0, 50, 30, "", true), c, rest];
    assert IsFirstOwnedBy(s5, "C", 1);
    ScenarioReleaseC();
  }

  const ScenarioA := Block(0, 30, 30, "A", false)
  const ScenarioB := Block(30, 20, 20, "B", false)
  const ScenarioC := Block(50, 10, 10, "C", false)
  const ScenarioRest := FreeBlock(60, 40)

  /** The three first-fit allocations of the scenario. */
  lemma ScenarioAllocations()
    ensures
      var s0 := [FreeBlock(0, 100)];
      var s1 := Place(s0, 0, "A", 30, 30);
      var s2 := Place(s1, 1, "B", 20, 20);
      IsFirstFit(s0, 30, 0) && IsFirstFit(s1, 20, 1) && IsFirstFit(s2, 10, 2) &&
      Place(s2, 2, "C", 10, 10) == [ScenarioA, ScenarioB, ScenarioC, ScenarioRest]
  {
    var s0 := [FreeBlock(0, 100)];
    var s1 := Place(s0, 0, "A", 30, 30);
    assert s1 == [ScenarioA, FreeBlock(30, 70)];
    var s2 := Place(s1, 1, "B", 20, 20);
    assert s2 == [ScenarioA, ScenarioB, FreeBlock(50, 50)];
  }

  /** Freeing B, between two owned blocks, merges nothing. */
  lemma ScenarioReleaseB()
    ensures Release([ScenarioA, ScenarioB, ScenarioC, ScenarioRest], 1) ==
            [ScenarioA, Block(30, 20, 20, "", true), ScenarioC, ScenarioRest]
  {
    var t := [ScenarioA, Block(30, 20, 20, "", true), ScenarioC, ScenarioRest];
    assert [ScenarioA, ScenarioB, ScenarioC, ScenarioRest][1 := ScenarioB.Freed()] == t;
    CoalesceFixpoint(t);
  }

  /** Freeing A merges it with the free block B left behind. */
  lemma ScenarioReleaseA()
    ensures Release([ScenarioA, Block(30, 20, 20, "", true), ScenarioC, ScenarioRest], 0) ==
            [Block(0, 50, 30, "", true), ScenarioC, ScenarioRest]
  {
    var t := [Block(0, 30, 30, "", true), Block(30, 20, 20, "", true), ScenarioC, ScenarioRest];
    assert [ScenarioA, Block(30, 20, 20, "", true), ScenarioC, ScenarioRest][0 := ScenarioA.Freed()] == t;
    CoalesceMergeStep(t);
    var u := [Block(0, 50, 30, "", true), ScenarioC, ScenarioRest];
    assert [t[0].IncreaseSize(t[1].size)] + t[2..] == u;
    CoalesceFixpoint(u);
  }

  /** Freeing C merges it with the free blocks on both sides. */
  lemma ScenarioReleaseC()
    ensures Release([Block(0, 50, 30, "", true), ScenarioC, ScenarioRest], 1) ==
            [Block(0, 100, 30, "", true)]
  {
    var t := [Block(0, 50, 30, "", true), Block(50, 10, 10, "", true), ScenarioRest];
    assert [Block(0, 50, 30, "", true), ScenarioC, ScenarioRest][1 := ScenarioC.Freed()] == t;
    CoalesceMergeStep(t);
    var u := [Block(0, 60, 30, "", true), ScenarioRest];
    assert [t[0].IncreaseSize(t[1].size)] + t[2..] == u;
    CoalesceMergeStep(u);
    assert [u[0].IncreaseSize(u[1].size)] + u[2..] == [Block(0, 100, 30, "", true)];
  }
}
