/**
 * The three placement rules of `MemoryManager`: first-fit, best-fit and
 * worst-fit.  Each is one scan over the block list in address order; the
 * block it picks is what `allocateBlock` then works on.
 */
module Placement {
  import opened Wrappers
  import opened Blocks
  import opened Registry

  /** A block that can take a request of `request` units. */
  predicate Fits(b: Block, request: int)
  {
    b.isFree && b.size >= request
  }

  /** No block of `s` can take the request. */
  predicate NoFit(s: seq<Block>, request: int)
  {
    forall k :: 0 <= k < |s| ==> !Fits(s[k], request)
  }

  /** First-fit: `i` is the earliest fitting block. */
  predicate IsFirstFit(s: seq<Block>, request: int, i: int)
  {
    0 <= i < |s| && Fits(s[i], request) &&
    forall k :: 0 <= k < i ==> !Fits(s[k], request)
  }

  /** Best-fit with the running minimum started at `limit`: `i` fits, is
      smaller than `limit`, no fitting block is smaller, and every fitting block
      before it is strictly larger (the comparison `<` keeps the first minimum). */
  predicate IsBestFit(s: seq<Block>, request: int, limit: int, i: int)
  {
    0 <= i < |s| && Fits(s[i], request) && s[i].size < limit &&
    (forall k :: 0 <= k < |s| && Fits(s[k], request) ==> s[i].size <= s[k].size) &&
    (forall k :: 0 <= k < i && Fits(s[k], request) ==> s[i].size < s[k].size)
  }

  /** The initial running maximum of worst-fit. */
  const WorstFitFloor := -1

  /** Worst-fit: `i` fits, is larger than the initial running maximum, no
      fitting block is larger, and every fitting block before it is strictly
      smaller (the comparison `>` keeps the first maximum). */
  predicate IsWorstFit(s: seq<Block>, request: int, i: int)
  {
    0 <= i < |s| && Fits(s[i], request) && s[i].size > WorstFitFloor &&
    (forall k :: 0 <= k < |s| && Fits(s[k], request) ==> s[k].size <= s[i].size) &&
    (forall k :: 0 <= k < i && Fits(s[k], request) ==> s[k].size < s[i].size)
  }

  /** The loop of `allocateFirstFit`. */
  method ScanFirstFit(s: seq<Block>, request: int) returns (r: Option<nat>)
    ensures r.Some? ==> IsFirstFit(s, request, r.value)
    ensures r.None? ==> NoFit(s, request)
  {
    var i := 0;
    while i < |s|
      invariant 0 <= i <= |s|
      invariant forall k :: 0 <= k < i ==> !Fits(s[k], request)
    {
      if s[i].isFree && s[i].size >= request {
        return Some(i);
      }
      i := i + 1;
    }
    return None;
  }

  /** The loop of `allocateBestFit`, with the running minimum started at `limit`
      (the source starts it at `totalMemory + 1`). */
  method ScanBestFit(s: seq<Block>, request: int, limit: int) returns (r: Option<nat>)
    ensures r.Some? ==> IsBestFit(s, request, limit, r.value)
    ensures r.None? ==> forall k :: 0 <= k < |s| && Fits(s[k], request) ==> s[k].size >= limit
  {
    var best: Option<nat> := None;
    var minSize := limit;
    var i := 0;
    while i < |s|
      invariant 0 <= i <= |s|
      invariant best.None? ==> minSize == limit
      invariant best.Some? ==>
        best.value < i && Fits(s[best.value], request) && minSize == s[best.value].size < limit
      invariant forall k :: 0 <= k < i && Fits(s[k], request) ==> minSize <= s[k].size
      invariant best.Some? ==>
        forall k :: 0 <= k < best.value && Fits(s[k], request) ==> minSize < s[k].size
    {
      if s[i].isFree && s[i].size >= request {
        if s[i].size < minSize {
          minSize := s[i].size;
          best := Some(i);
        }
      }
      i := i + 1;
    }
    return best;
  }

  /** The loop of `allocateWorstFit`, with the running maximum started at -1. */
  method ScanWorstFit(s: seq<Block>, request: int) returns (r: Option<nat>)
    ensures r.Some? ==> IsWorstFit(s, request, r.value)
    ensures r.None? ==> forall k :: 0 <= k < |s| && Fits(s[k], request) ==> s[k].size <= WorstFitFloor
  {
    var worst: Option<nat> := None;
    var maxSize := WorstFitFloor;
    var i := 0;
    while i < |s|
      invariant 0 <= i <= |s|
      invariant worst.None? ==> maxSize == WorstFitFloor
      invariant worst.Some? ==>
        worst.value < i && Fits(s[worst.value], request) && maxSize == s[worst.value].size > WorstFitFloor
      invariant forall k :: 0 <= k < i && Fits(s[k], request) ==> s[k].size <= maxSize
      invariant worst.Some? ==>
        forall k :: 0 <= k < worst.value && Fits(s[k], request) ==> s[k].size < maxSize
    {
      if s[i].isFree && s[i].size >= request {
        if s[i].size > maxSize {
          maxSize := s[i].size;
          worst := Some(i);
        }
      }
      i := i + 1;
    }
    return worst;
  }

  /** Each rule picks exactly one block: the tie-breaks leave no choice. */
  lemma BestFitUnique(s: seq<Block>, request: int, limit: int, i: int, j: int)
    requires IsBestFit(s, request, limit, i) && IsBestFit(s, request, limit, j)
    ensures i == j
  {
  }

  lemma WorstFitUnique(s: seq<Block>, request: int, i: int, j: int)
    requires IsWorstFit(s, request, i) && IsWorstFit(s, request, j)
    ensures i == j
  {
  }

  /** In a registry the two running-extremum starting values never get in the
      way: best-fit with limit `totalMemory + 1` and worst-fit find a block
      exactly when some block fits a positive request. */
  lemma SentinelsInert(s: seq<Block>, total: int, request: int)
    requires IsRegistry(s, total) && request > 0
    ensures forall k :: 0 <= k < |s| && Fits(s[k], request) ==> WorstFitFloor < s[k].size < total + 1
  {
    TilesBounds(s, 0, total);
  }

  /** The block best-fit picks is no larger than the one first-fit picks, and
      the one worst-fit picks is no smaller. */
  lemma RulesCompared(s: seq<Block>, request: int, limit: int, f: int, b: int, w: int)
    requires IsFirstFit(s, request, f) && IsBestFit(s, request, limit, b) && IsWorstFit(s, request, w)
    ensures s[b].size <= s[f].size <= s[w].size
    ensures b >= f && w >= f
  {
  }

  // ---------------------------------------------------------------------------
  // The best-fit starting value in 32-bit arithmetic

  const IntMax := 0x7fff_ffff

  /** A C++ `int` result with two's-complement wrap-around. */
  function Int32Wrap(x: int): (r: int)
    ensures -IntMax - 1 <= r <= IntMax
    ensures -IntMax - 1 <= x <= IntMax ==> r == x
  {
    (x + IntMax + 1) % (2 * (IntMax + 1)) - IntMax - 1
  }

  /** `totalMemory + 1` as the source computes it, in `int`. */
  function BestFitLimitAsWritten(totalMemory: int): int
  {
    Int32Wrap(totalMemory + 1)
  }

  /** With `totalMemory` at the largest `int`, the starting value of the
      running minimum wraps to the smallest `int`; no block is smaller, so
      best-fit turns down a request that a free block of the whole memory can
      take (first-fit takes it). */
  lemma BestFitOverflowAtIntMax(request: int)
    requires 0 < request <= IntMax
    ensures var s := [FreeBlock(0, IntMax)];
      IsFirstFit(s, request, 0) &&
      BestFitLimitAsWritten(IntMax) == -IntMax - 1 &&
      forall i :: !IsBestFit(s, request, BestFitLimitAsWritten(IntMax), i)
  {
    assert BestFitLimitAsWritten(IntMax) == -IntMax - 1;
  }

  /** With a starting value above `totalMemory`, as `totalMemory + 1` is when
      computed without wrap-around, best-fit on a registry picks a block
      whenever one fits. */
  lemma BestFitLimitExcludesNothing(s: seq<Block>, total: int, request: int, limit: int)
    requires IsRegistry(s, total) && request > 0 && limit > total && !NoFit(s, request)
    ensures exists i :: IsBestFit(s, request, limit, i)
  {
    var f :| 0 <= f < |s| && Fits(s[f], request);
    SentinelsInert(s, total, request);
    var i := MinimalFit(s, request, f);
    assert IsBestFit(s, request, limit, i);
  }

  /** The earliest of the smallest fitting blocks, found by induction over the list. */
  lemma {:induction false} MinimalFit(s: seq<Block>, request: int, f: int) returns (i: int)
    requires 0 <= f < |s| && Fits(s[f], request)
    ensures IsBestFit(s, request, s[f].size + 1, i)
    decreases |s|
  {
    if |s| == 1 {
      i := 0;
    } else {
      var init := s[..|s| - 1];
      var last := s[|s| - 1];
      assert forall k :: 0 <= k < |init| ==> init[k] == s[k];
      if f == |s| - 1 {
        if exists g :: 0 <= g < |init| && Fits(init[g], request) && init[g].size <= last.size {
          var g :| 0 <= g < |init| && Fits(init[g], request) && init[g].size <= last.size;
          i := MinimalFit(init, request, g);
        } else {
          i := f;
        }
      } else {
        var j := MinimalFit(init, request, f);
        if Fits(last, request) && last.size < s[j].size {
          i := |s| - 1;
        } else {
          i := j;
        }
      }
    }
  }

  // ---------------------------------------------------------------------------
  // A worked example

  /** Free blocks of 10, 4 and 20 units and a request for 5: first-fit and
      best-fit take the block of 10, worst-fit the block of 20. */
  lemma RulesExample()
    ensures var s := [FreeBlock(0, 10), FreeBlock(10, 4), FreeBlock(14, 20)];
      IsFirstFit(s, 5, 0) && IsBestFit(s, 5, 35, 0) && IsWorstFit(s, 5, 2)
  {
  }
}
