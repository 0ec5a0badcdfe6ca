/**
 * The figures `displayMemory` computes from one pass over the block list:
 * reserved units, units really used, internal fragmentation, free units,
 * the largest free block and external fragmentation.
 */
module Fragmentation {
  import opened Blocks
  import opened Registry

  datatype Stats = Stats(
    reservedUsed: int,   // units held by owned blocks
    actualUsed: int,     // units the owners really use
    internalFrag: int,   // reserved but unused units
    totalFree: int,      // units in free blocks
    largestFree: int,    // size of the largest free block, 0 if none
    externalFrag: int)   // free units outside the largest free block

  function ReservedPart(b: Block): int { if b.isFree then 0 else b.size }
  function UsedPart(b: Block): int { if b.isFree then 0 else b.used }
  function UnusedPart(b: Block): int { if b.isFree then 0 else b.size - b.used }
  function FreePart(b: Block): int { if b.isFree then b.size else 0 }

  function ReservedUsed(s: seq<Block>): int { Total(s, ReservedPart) }
  function ActualUsed(s: seq<Block>): int { Total(s, UsedPart) }
  function InternalFrag(s: seq<Block>): int { Total(s, UnusedPart) }
  function TotalFree(s: seq<Block>): int { Total(s, FreePart) }

  /** The running maximum over free blocks, started at 0. */
  function LargestFree(s: seq<Block>): int
  {
    if s == [] then 0
    else
      var m := LargestFree(s[..|s| - 1]);
      if s[|s| - 1].isFree && s[|s| - 1].size > m then s[|s| - 1].size else m
  }

  /** `max(totalFree - largestFree, 0)`. */
  function ExternalFrag(totalFree: int, largestFree: int): (e: int)
    ensures e >= 0 && e >= totalFree - largestFree
    ensures e == totalFree - largestFree || e == 0
  {
    var e := totalFree - largestFree;
    if e < 0 then 0 else e
  }

  // ---------------------------------------------------------------------------

  /** The largest free block is an upper bound of every free block, is attained
      by one when it is positive, and is 0 when no block is free. */
  lemma {:induction false} LargestFreeIsMax(s: seq<Block>)
    ensures LargestFree(s) >= 0
    ensures forall k :: 0 <= k < |s| && s[k].isFree ==> s[k].size <= LargestFree(s)
    ensures LargestFree(s) > 0 ==> exists k :: 0 <= k < |s| && s[k].isFree && s[k].size == LargestFree(s)
    ensures (forall k :: 0 <= k < |s| ==> !s[k].isFree) ==> LargestFree(s) == 0
    decreases |s|
  {
    if s != [] {
      var init := s[..|s| - 1];
      LargestFreeIsMax(init);
      assert forall k :: 0 <= k < |init| ==> init[k] == s[k];
      if LargestFree(s) > 0 && LargestFree(s) == LargestFree(init) {
        var k :| 0 <= k < |init| && init[k].isFree && init[k].size == LargestFree(init);
        assert s[k].isFree && s[k].size == LargestFree(s);
      }
    }
  }

  /** Reserved and free units together are the units the list covers; in a
      registry over [0, totalMemory) that is `totalMemory`. */
  lemma {:induction false} ReservedPlusFree(s: seq<Block>)
    ensures ReservedUsed(s) + TotalFree(s) == Sum(s)
    decreases |s|
  {
    if s != [] {
      ReservedPlusFree(s[..|s| - 1]);
    }
  }

  lemma ReservedPlusFreeIsTotal(s: seq<Block>, totalMemory: int)
    requires Tiles(s, 0, totalMemory)
    ensures ReservedUsed(s) + TotalFree(s) == totalMemory
  {
    ReservedPlusFree(s);
    TilesEnd(s, 0, totalMemory);
  }

  /** Internal fragmentation is the reserved units minus the used ones, and is
      never negative when every used figure is within its block. */
  lemma {:induction false} InternalFragIsDifference(s: seq<Block>)
    ensures InternalFrag(s) == ReservedUsed(s) - ActualUsed(s)
    ensures AllWellFormed(s) ==> InternalFrag(s) >= 0
    decreases |s|
  {
    if s != [] {
      var init := s[..|s| - 1];
      assert forall k :: 0 <= k < |init| ==> init[k] == s[k];
      InternalFragIsDifference(init);
    }
  }

  /** The largest free block holds at most all free units, so external
      fragmentation is exactly the free units outside it. */
  lemma {:induction false} LargestWithinTotalFree(s: seq<Block>)
    requires AllWellFormed(s)
    ensures 0 <= LargestFree(s) <= TotalFree(s)
    ensures ExternalFrag(TotalFree(s), LargestFree(s)) == TotalFree(s) - LargestFree(s)
    decreases |s|
  {
    if s != [] {
      var init := s[..|s| - 1];
      assert forall k :: 0 <= k < |init| ==> init[k] == s[k];
      LargestWithinTotalFree(init);
    }
  }

  // ---------------------------------------------------------------------------
  // How the figures move under the registry operations

  lemma TotalUpdate(s: seq<Block>, i: nat, x: Block, part: Block -> int)
    requires i < |s|
    ensures Total(s[i := x], part) == Total(s, part) - part(s[i]) + part(x)
  {
    assert s == s[..i] + [s[i]] + s[i + 1..];
    assert s[i := x] == s[..i] + [x] + s[i + 1..];
    TotalAppend(s[..i] + [s[i]], s[i + 1..], part);
    TotalAppend(s[..i], [s[i]], part);
    TotalAppend(s[..i] + [x], s[i + 1..], part);
    TotalAppend(s[..i], [x], part);
    assert [s[i]][..0] == [] && [x][..0] == [];
  }

  lemma TotalSplit(s: seq<Block>, i: nat, x: Block, y: Block, part: Block -> int)
    requires i < |s|
    ensures Total(s[..i] + [x, y] + s[i + 1..], part) == Total(s, part) - part(s[i]) + part(x) + part(y)
  {
    assert s == s[..i] + [s[i]] + s[i + 1..];
    TotalAppend(s[..i] + [s[i]], s[i + 1..], part);
    TotalAppend(s[..i], [s[i]], part);
    TotalAppend(s[..i] + [x, y], s[i + 1..], part);
    TotalAppend(s[..i], [x, y], part);
    assert [s[i]][..0] == [] && [x, y][..1] == [x] && [x][..0] == [];
  }

  /** A figure that free blocks do not contribute to depends only on the owned blocks. */
  lemma {:induction false} TotalOfOwned(s: seq<Block>, part: Block -> int)
    requires forall b: Block :: b.isFree ==> part(b) == 0
    ensures Total(s, part) == Total(Owned(s), part)
    decreases |s|
  {
    if s != [] {
      TotalOfOwned(s[1..], part);
      TotalAppend([s[0]], s[1..], part);
      assert [s[0]] + s[1..] == s;
      var head := if s[0].isFree then [] else [s[0]];
      TotalAppend(head, Owned(s[1..]), part);
      assert [s[0]][..0] == [];
    }
  }

  /** Coalescing leaves the reserved and used figures alone. */
  lemma CoalesceKeepsUsage(s: seq<Block>)
    ensures ReservedUsed(Coalesce(s)) == ReservedUsed(s)
    ensures ActualUsed(Coalesce(s)) == ActualUsed(s)
  {
    CoalesceOwned(s);
    TotalOfOwned(s, ReservedPart);
    TotalOfOwned(Coalesce(s), ReservedPart);
    TotalOfOwned(s, UsedPart);
    TotalOfOwned(Coalesce(s), UsedPart);
  }

  /** Allocating `size` units with `used` of them in use moves `size` units from
      free to reserved and adds `used` to the used figure. */
  lemma PlaceMovesUnits(s: seq<Block>, i: nat, p: string, size: int, used: int)
    requires i < |s| && s[i].isFree && s[i].size >= size && used != -1
    ensures ReservedUsed(Place(s, i, p, size, used)) == ReservedUsed(s) + size
    ensures TotalFree(Place(s, i, p, size, used)) == TotalFree(s) - size
    ensures ActualUsed(Place(s, i, p, size, used)) == ActualUsed(s) + used
  {
    var r := Place(s, i, p, size, used);
    if s[i].size == size {
      TotalUpdate(s, i, r[i], ReservedPart);
      TotalUpdate(s, i, r[i], FreePart);
      TotalUpdate(s, i, r[i], UsedPart);
    } else {
      assert r == s[..i] + [r[i], r[i + 1]] + s[i + 1..];
      TotalSplit(s, i, r[i], r[i + 1], ReservedPart);
      TotalSplit(s, i, r[i], r[i + 1], FreePart);
      TotalSplit(s, i, r[i], r[i + 1], UsedPart);
    }
  }

  /** Deallocating the owned block at `i` moves its units from reserved to free
      and takes its used figure off the used total. */
  lemma ReleaseMovesUnits(s: seq<Block>, i: nat)
    requires i < |s| && !s[i].isFree
    ensures ReservedUsed(Release(s, i)) == ReservedUsed(s) - s[i].size
    ensures ActualUsed(Release(s, i)) == ActualUsed(s) - s[i].used
    ensures TotalFree(Release(s, i)) == TotalFree(s) + s[i].size
  {
    var t := s[i := s[i].Freed()];
    TotalUpdate(s, i, s[i].Freed(), ReservedPart);
    TotalUpdate(s, i, s[i].Freed(), UsedPart);
    TotalUpdate(s, i, s[i].Freed(), FreePart);
    CoalesceKeepsUsage(t);
    CoalesceSum(t);
    ReservedPlusFree(t);
    ReservedPlusFree(Coalesce(t));
  }

  /** The worked example: owned blocks of 10 (6 used) and 5 (5 used) and free
      blocks of 3 and 7 give internal fragmentation 4, 10 free units, a largest
      free block of 7 and external fragmentation 3. */
  lemma ExampleFigures()
    ensures var s := [Block(0, 10, 6, "A", false), Block(10, 3, 3, "", true),
                      Block(13, 5, 5, "B", false), Block(18, 7, 7, "", true)];
      InternalFrag(s) == 4 && TotalFree(s) == 10 && LargestFree(s) == 7 &&
      ExternalFrag(TotalFree(s), LargestFree(s)) == 3
  {
    var s := [Block(0, 10, 6, "A", false), Block(10, 3, 3, "", true),
              Block(13, 5, 5, "B", false), Block(18, 7, 7, "", true)];
    var p1, p2, p3 := [s[0]], [s[0], s[1]], [s[0], s[1], s[2]];
    assert p1[..0] == [] && p2[..1] == p1 && p3[..2] == p2 && s[..3] == p3;
    assert LargestFree(p1) == 0;
    assert LargestFree(p2) == 3;
    assert LargestFree(p3) == 3;
    assert Total(p1, UnusedPart) == Total([], UnusedPart) + UnusedPart(s[0]) == 4;
    assert Total(p2, UnusedPart) == 4 && Total(p3, UnusedPart) == 4 && Total(s, UnusedPart) == 4;
    assert Total(p1, FreePart) == Total([], FreePart) + FreePart(s[0]) == 0;
    assert Total(p2, FreePart) == 3 && Total(p3, FreePart) == 3 && Total(s, FreePart) == 10;
  }
}
