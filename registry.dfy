/**
 * The block registry: the address-ordered list of blocks that tiles
 * [0, totalMemory), and the two list rewrites the engine performs on it,
 * splitting a free block on allocation (`allocateBlock`) and sweeping
 * adjacent free blocks together after a release (`mergeAdjacentFreeBlocks`).
 */
module Registry {
  import opened Blocks

  /** A per-block figure summed over a list, accumulated from the front as the
      source's loops do. */
  function Total(s: seq<Block>, part: Block -> int): int
  {
    if s == [] then 0 else Total(s[..|s| - 1], part) + part(s[|s| - 1])
  }

  lemma {:induction false} TotalAppend(a: seq<Block>, b: seq<Block>, part: Block -> int)
    ensures Total(a + b, part) == Total(a, part) + Total(b, part)
    decreases |b|
  {
    if b == [] {
      assert a + b == a;
    } else {
      assert (a + b)[..|a + b| - 1] == a + b[..|b| - 1];
      TotalAppend(a, b[..|b| - 1], part);
    }
  }

  function SizeOf(b: Block): int { b.size }

  /** The number of address units the blocks cover. */
  function Sum(s: seq<Block>): int { Total(s, SizeOf) }

  lemma SumCons(b: Block, s: seq<Block>)
    ensures Sum([b] + s) == b.size + Sum(s)
  {
    TotalAppend([b], s, SizeOf);
    assert [b][..0] == [];
  }

  /** The blocks of `s`, in order, tile [from, to): each starts where the previous one ends. */
  predicate Tiles(s: seq<Block>, from: int, to: int)
    decreases |s|
  {
    if s == [] then from == to else s[0].start == from && Tiles(s[1..], s[0].End(), to)
  }

  predicate AllWellFormed(s: seq<Block>)
  {
    forall k :: 0 <= k < |s| ==> s[k].WellFormed()
  }

  /** No two consecutive blocks are both free. */
  predicate NoAdjacentFree(s: seq<Block>)
  {
    forall k :: 0 < k < |s| ==> !(s[k - 1].isFree && s[k].isFree)
  }

  /** The invariant the manager keeps between operations. */
  predicate IsRegistry(s: seq<Block>, totalMemory: int)
  {
    Tiles(s, 0, totalMemory) && AllWellFormed(s) && NoAdjacentFree(s)
  }

  /** The blocks that are owned, in address order. */
  function Owned(s: seq<Block>): seq<Block>
  {
    if s == [] then [] else (if s[0].isFree then [] else [s[0]]) + Owned(s[1..])
  }

  /** The start addresses of a list of blocks. */
  function Starts(s: seq<Block>): set<int>
  {
    set k | 0 <= k < |s| :: s[k].start
  }

  /** Two lists that show the same layout: the same extents, the same free/owned
      pattern and, on owned blocks, the same owner and used figure.  The used
      figure a free block carries is not part of the layout. */
  predicate SameLayout(a: seq<Block>, b: seq<Block>)
  {
    |a| == |b| &&
    forall k :: 0 <= k < |a| ==>
      a[k].start == b[k].start && a[k].size == b[k].size &&
      a[k].isFree == b[k].isFree && a[k].process == b[k].process &&
      (!a[k].isFree ==> a[k].used == b[k].used)
  }

  /** Index `i` holds the first block, in address order, owned by `p`. */
  predicate IsFirstOwnedBy(s: seq<Block>, p: string, i: int)
  {
    0 <= i < |s| && s[i].OwnedBy(p) && forall k :: 0 <= k < i ==> !s[k].OwnedBy(p)
  }

  // ---------------------------------------------------------------------------
  // Tiling facts

  lemma {:induction false} TilesEnd(s: seq<Block>, from: int, to: int)
    requires Tiles(s, from, to)
    ensures to == from + Sum(s)
    decreases |s|
  {
    if s == [] {
    } else {
      TilesEnd(s[1..], s[0].End(), to);
      SumCons(s[0], s[1..]);
      assert [s[0]] + s[1..] == s;
    }
  }

  lemma {:induction false} TilesAppend(a: seq<Block>, b: seq<Block>, from: int, mid: int, to: int)
    requires Tiles(a, from, mid) && Tiles(b, mid, to)
    ensures Tiles(a + b, from, to)
    decreases |a|
  {
    if a != [] {
      TilesAppend(a[1..], b, a[0].End(), mid, to);
      assert (a + b)[1..] == a[1..] + b;
    } else {
      assert a + b == b;
    }
  }

  lemma {:induction false} TilesSplit(a: seq<Block>, b: seq<Block>, from: int, to: int)
    requires Tiles(a + b, from, to)
    ensures Tiles(a, from, from + Sum(a)) && Tiles(b, from + Sum(a), to)
    decreases |a|
  {
    if a == [] {
      assert a + b == b;
    } else {
      assert (a + b)[1..] == a[1..] + b;
      TilesSplit(a[1..], b, a[0].End(), to);
      SumCons(a[0], a[1..]);
      assert [a[0]] + a[1..] == a;
    }
  }

  /** Every block of a tiling with positive sizes lies inside the tiled range. */
  lemma {:induction false} TilesBounds(s: seq<Block>, from: int, to: int)
    requires Tiles(s, from, to) && AllWellFormed(s)
    ensures forall k :: 0 <= k < |s| ==> from <= s[k].start && s[k].End() <= to
    decreases |s|
  {
    if s != [] {
      TilesBounds(s[1..], s[0].End(), to);
      assert forall k :: 1 <= k < |s| ==> s[k] == s[1..][k - 1];
    }
  }

  /** A list with the same extents as a tiling is a tiling. */
  lemma {:induction false} TilesSameExtents(s: seq<Block>, t: seq<Block>, from: int, to: int)
    requires Tiles(s, from, to) && |s| == |t|
    requires forall k :: 0 <= k < |s| ==> s[k].start == t[k].start && s[k].size == t[k].size
    ensures Tiles(t, from, to)
    decreases |s|
  {
    if s != [] {
      TilesSameExtents(s[1..], t[1..], s[0].End(), to);
    }
  }

  // ---------------------------------------------------------------------------
  // Allocation: `allocateBlock`

  /** `allocateBlock` on the free block at index `i`: an exact fit turns that
      block into an owned one in place; a larger block is cut into an owned
      prefix of `size` units and a free remainder inserted right after it. */
  function Place(s: seq<Block>, i: nat, p: string, size: int, used: int): (r: seq<Block>)
    requires i < |s|
    ensures s[i].size == size ==>
      |r| == |s| && r[i] == s[i].AllocatedTo(p, used) &&
      forall k :: 0 <= k < |s| && k != i ==> r[k] == s[k]
    ensures s[i].size != size ==>
      |r| == |s| + 1 && r[..i] == s[..i] && r[i + 2..] == s[i + 1..] &&
      r[i] == MakeBlock(s[i].start, size, p, false, used) &&
      r[i + 1] == FreeBlock(s[i].start + size, s[i].size - size)
  {
    if s[i].size == size then
      s[i := s[i].AllocatedTo(p, used)]
    else
      s[..i] + [MakeBlock(s[i].start, size, p, false, used),
                FreeBlock(s[i].start + size, s[i].size - size)] + s[i + 1..]
  }

  /** Allocating from a fitting free block of a registry gives a registry over
      the same range, with the owned block `[start, start + size)` owned by `p`. */
  lemma PlaceKeepsRegistry(s: seq<Block>, total: int, i: nat, p: string, size: int, used: int)
    requires IsRegistry(s, total) && i < |s| && s[i].isFree && s[i].size >= size > 0
    requires 0 <= used <= size
    ensures IsRegistry(Place(s, i, p, size, used), total)
    ensures Place(s, i, p, size, used)[i] == Block(s[i].start, size, used, p, false)
    ensures Sum(Place(s, i, p, size, used)) == Sum(s)
  {
    var r := Place(s, i, p, size, used);
    PlaceTiles(s, 0, total, i, p, size, used);
    PlaceWellFormed(s, i, p, size, used);
    PlaceNoAdjacentFree(s, i, p, size, used);
    TilesEnd(s, 0, total);
    TilesEnd(r, 0, total);
  }

  lemma PlaceTiles(s: seq<Block>, from: int, to: int, i: nat, p: string, size: int, used: int)
    requires Tiles(s, from, to) && i < |s|
    ensures Tiles(Place(s, i, p, size, used), from, to)
  {
    var r := Place(s, i, p, size, used);
    if s[i].size == size {
      TilesSameExtents(s, r, from, to);
    } else {
      Around(s, i);
      SplitShape(s, r, i);
      SplitTiles(s[..i], s[i], r[i], r[i + 1], s[i + 1..], from, to);
    }
  }

  /** A list is the blocks before `i`, the block at `i` and the blocks after it. */
  lemma Around(s: seq<Block>, i: nat)
    requires i < |s|
    ensures s == s[..i] + ([s[i]] + s[i + 1..])
  {
  }

  /** A list that agrees with `s` before `i` and, shifted by one, after `i`. */
  lemma SplitShape(s: seq<Block>, r: seq<Block>, i: nat)
    requires i < |s| && |r| == |s| + 1 && r[..i] == s[..i] && r[i + 2..] == s[i + 1..]
    ensures r == s[..i] + ([r[i]] + ([r[i + 1]] + s[i + 1..]))
  {
    assert r == r[..i] + ([r[i]] + ([r[i + 1]] + r[i + 2..]));
  }

  /** Two blocks that cover exactly the extent of one block can replace it in a tiling. */
  lemma SplitTiles(a: seq<Block>, b: Block, o: Block, f: Block, rest: seq<Block>, from: int, to: int)
    requires Tiles(a + ([b] + rest), from, to)
    requires o.start == b.start && f.start == o.End() && f.End() == b.End()
    ensures Tiles(a + ([o] + ([f] + rest)), from, to)
  {
    var mid := from + Sum(a);
    TilesSplit(a, [b] + rest, from, to);
    TilesCons(b, rest, mid, to);
    TilesCons(f, rest, o.End(), to);
    TilesCons(o, [f] + rest, mid, to);
    TilesAppend(a, [o] + ([f] + rest), from, mid, to);
  }

  lemma TilesCons(b: Block, t: seq<Block>, from: int, to: int)
    ensures Tiles([b] + t, from, to) <==> b.start == from && Tiles(t, b.End(), to)
  {
    assert ([b] + t)[1..] == t;
  }

  lemma PlaceWellFormed(s: seq<Block>, i: nat, p: string, size: int, used: int)
    requires AllWellFormed(s) && i < |s| && s[i].size >= size > 0 && 0 <= used <= size
    ensures AllWellFormed(Place(s, i, p, size, used))
  {
    var r := Place(s, i, p, size, used);
    if s[i].size != size {
      forall k | 0 <= k < |r| ensures r[k].WellFormed() {
        if k < i { assert r[k] == r[..i][k]; }
        else if k > i + 1 { assert r[k] == r[i + 2..][k - i - 2] == s[k - 1]; }
      }
    }
  }

  lemma PlaceNoAdjacentFree(s: seq<Block>, i: nat, p: string, size: int, used: int)
    requires NoAdjacentFree(s) && i < |s| && s[i].isFree && s[i].size >= size
    ensures NoAdjacentFree(Place(s, i, p, size, used))
  {
    var r := Place(s, i, p, size, used);
    if s[i].size != size {
      forall k | 0 < k < |r| ensures !(r[k - 1].isFree && r[k].isFree) {
        if k < i { assert r[k - 1] == r[..i][k - 1] && r[k] == r[..i][k]; }
        else if k == i { assert r[k - 1] == r[..i][k - 1] == s[k - 1]; }
        else if k == i + 2 { assert r[k] == r[i + 2..][0] == s[i + 1]; }
        else if k > i + 2 {
          assert r[k] == r[i + 2..][k - i - 2] == s[k - 1];
          assert r[k - 1] == r[i + 2..][k - i - 3] == s[k - 2];
        }
      }
    }
  }

  // ---------------------------------------------------------------------------
  // Coalescing: `mergeAdjacentFreeBlocks`

  /** The sweep of `mergeAdjacentFreeBlocks`: from the head, a free block
      followed by a free block absorbs it and is looked at again; otherwise the
      sweep moves on.  The result has no two consecutive free blocks, and the
      first block keeps its start and its free/owned status. */
  function Coalesce(s: seq<Block>): (r: seq<Block>)
    ensures |r| <= |s| && (|r| == 0 <==> |s| == 0)
    ensures |s| > 0 ==> r[0].start == s[0].start && r[0].isFree == s[0].isFree
    ensures NoAdjacentFree(r)
    decreases |s|
  {
    if |s| < 2 then s
    else if s[0].isFree && s[1].isFree then Coalesce([s[0].IncreaseSize(s[1].size)] + s[2..])
    else [s[0]] + Coalesce(s[1..])
  }

  /** One step of the sweep on a free block followed by a free block. */
  lemma CoalesceMergeStep(t: seq<Block>)
    requires |t| >= 2 && t[0].isFree && t[1].isFree
    ensures Coalesce(t) == Coalesce([t[0].IncreaseSize(t[1].size)] + t[2..])
  {
  }

  /** One step of the sweep that moves past the first block. */
  lemma CoalesceKeepStep(t: seq<Block>)
    requires |t| >= 1 && !(|t| >= 2 && t[0].isFree && t[1].isFree)
    ensures Coalesce(t) == [t[0]] + Coalesce(t[1..])
  {
    if |t| == 1 {
      assert t[1..] == [];
    }
  }

  /** The loop state of the sweep at position `i` after a merge there: the
      block at `i` has absorbed its free successor, which is erased. */
  lemma SweepMerge(m: seq<Block>, i: nat)
    requires i + 1 < |m| && m[i].isFree && m[i + 1].isFree
    ensures var g := m[i := m[i].IncreaseSize(m[i + 1].size)];
      var n := g[..i + 1] + g[i + 2..];
      |n| == |m| - 1 && m[..i] + Coalesce(m[i..]) == n[..i] + Coalesce(n[i..])
  {
    var g := m[i := m[i].IncreaseSize(m[i + 1].size)];
    var n := g[..i + 1] + g[i + 2..];
    CoalesceMergeStep(m[i..]);
    assert n[..i] == m[..i];
    assert n[i..] == [m[i..][0].IncreaseSize(m[i..][1].size)] + m[i..][2..];
  }

  /** The loop state of the sweep at position `i` when it moves on. */
  lemma SweepAdvance(m: seq<Block>, i: nat)
    requires i < |m| && !(i + 1 < |m| && m[i].isFree && m[i + 1].isFree)
    ensures m[..i] + Coalesce(m[i..]) == m[..i + 1] + Coalesce(m[i + 1..])
  {
    CoalesceKeepStep(m[i..]);
    assert m[..i + 1] == m[..i] + [m[i]];
    assert m[i..][1..] == m[i + 1..];
  }

  /** The initial registry: one free block over the whole range. */
  lemma InitialRegistry(total: int)
    requires total > 0
    ensures IsRegistry([FreeBlock(0, total)], total)
  {
    assert [FreeBlock(0, total)][1..] == [];
  }

  /** Coalescing keeps the tiling: the blocks still cover the same range. */
  lemma {:induction false} CoalesceTiles(s: seq<Block>, from: int, to: int)
    requires Tiles(s, from, to)
    ensures Tiles(Coalesce(s), from, to)
    decreases |s|
  {
    if |s| < 2 {
    } else if s[0].isFree && s[1].isFree {
      var m := s[0].IncreaseSize(s[1].size);
      assert ([m] + s[2..])[1..] == s[2..] == s[1..][1..];
      CoalesceTiles([m] + s[2..], from, to);
    } else {
      CoalesceTiles(s[1..], s[0].End(), to);
    }
  }

  /** Coalescing keeps the number of units covered. */
  lemma {:induction false} CoalesceSum(s: seq<Block>)
    ensures Sum(Coalesce(s)) == Sum(s)
    decreases |s|
  {
    if |s| < 2 {
    } else if s[0].isFree && s[1].isFree {
      var m := s[0].IncreaseSize(s[1].size);
      CoalesceMergeStep(s);
      CoalesceSum([m] + s[2..]);
      SumCons(m, s[2..]);
      SumCons(s[1], s[2..]);
      SumCons(s[0], s[1..]);
      assert [s[1]] + s[2..] == s[1..];
      assert [s[0]] + s[1..] == s;
    } else {
      CoalesceKeepStep(s);
      CoalesceSum(s[1..]);
      SumCons(s[0], Coalesce(s[1..]));
      SumCons(s[0], s[1..]);
      assert [s[0]] + s[1..] == s;
    }
  }

  /** Coalescing leaves every owned block, and their order, untouched. */
  lemma {:induction false} CoalesceOwned(s: seq<Block>)
    ensures Owned(Coalesce(s)) == Owned(s)
    decreases |s|
  {
    if |s| < 2 {
    } else if s[0].isFree && s[1].isFree {
      var m := s[0].IncreaseSize(s[1].size);
      CoalesceOwned([m] + s[2..]);
      assert ([m] + s[2..])[1..] == s[2..] == s[1..][1..];
    } else {
      CoalesceOwned(s[1..]);
      assert ([s[0]] + Coalesce(s[1..]))[1..] == Coalesce(s[1..]);
    }
  }

  /** No block of the coalesced list starts at an address where no block started before. */
  lemma {:induction false} CoalesceStarts(s: seq<Block>)
    ensures Starts(Coalesce(s)) <= Starts(s)
    decreases |s|
  {
    if |s| < 2 {
    } else if s[0].isFree && s[1].isFree {
      var m := s[0].IncreaseSize(s[1].size);
      var t := [m] + s[2..];
      CoalesceStarts(t);
      forall x | x in Starts(t) ensures x in Starts(s) {
        var k :| 0 <= k < |t| && t[k].start == x;
        if k == 0 { assert s[0].start == x; } else { assert s[k + 1].start == x; }
      }
    } else {
      var c := Coalesce(s[1..]);
      CoalesceStarts(s[1..]);
      forall x | x in Starts([s[0]] + c) ensures x in Starts(s) {
        var k :| 0 <= k < |[s[0]] + c| && ([s[0]] + c)[k].start == x;
        if k == 0 { assert s[0].start == x; }
        else {
          assert c[k - 1].start == x;
          assert x in Starts(s[1..]);
          var j :| 0 <= j < |s[1..]| && s[1..][j].start == x;
          assert s[j + 1].start == x;
        }
      }
    }
  }

  /** Coalescing keeps every block well formed. */
  lemma {:induction false} CoalesceWellFormed(s: seq<Block>)
    requires AllWellFormed(s)
    ensures AllWellFormed(Coalesce(s))
    decreases |s|
  {
    if |s| < 2 {
    } else if s[0].isFree && s[1].isFree {
      var m := s[0].IncreaseSize(s[1].size);
      var t := [m] + s[2..];
      assert forall k :: 1 <= k < |t| ==> t[k] == s[k + 1];
      CoalesceWellFormed(t);
    } else {
      assert forall k :: 0 <= k < |s[1..]| ==> s[1..][k] == s[k + 1];
      CoalesceWellFormed(s[1..]);
      var r := [s[0]] + Coalesce(s[1..]);
      assert forall k :: 1 <= k < |r| ==> r[k] == Coalesce(s[1..])[k - 1];
    }
  }

  /** A list without two consecutive free blocks is left as it is. */
  lemma {:induction false} CoalesceFixpoint(s: seq<Block>)
    requires NoAdjacentFree(s)
    ensures Coalesce(s) == s
    decreases |s|
  {
    if |s| >= 2 {
      assert !(s[0].isFree && s[1].isFree);
      CoalesceFixpoint(s[1..]);
      assert [s[0]] + s[1..] == s;
    }
  }

  /** Running the sweep a second time changes nothing. */
  lemma CoalesceIdempotent(s: seq<Block>)
    ensures Coalesce(Coalesce(s)) == Coalesce(s)
  {
    CoalesceFixpoint(Coalesce(s));
  }

  /** A registry is already swept, so the sweep keeps it a registry. */
  lemma SweepKeepsRegistry(s: seq<Block>, total: int)
    requires IsRegistry(s, total)
    ensures IsRegistry(Coalesce(s), total)
  {
    CoalesceFixpoint(s);
  }

  /** The sweep keeps a block in front that cannot merge with what follows. */
  lemma CoalesceCons(b: Block, t: seq<Block>)
    requires t == [] || !(b.isFree && t[0].isFree)
    ensures Coalesce([b] + t) == [b] + Coalesce(t)
  {
    if t != [] {
      CoalesceKeepStep([b] + t);
      assert ([b] + t)[1..] == t;
    }
  }

  /** The sweep passes over a prefix that it cannot change. */
  lemma {:induction false} CoalescePrefix(a: seq<Block>, c: seq<Block>)
    requires NoAdjacentFree(a)
    requires a == [] || c == [] || !(a[|a| - 1].isFree && c[0].isFree)
    ensures Coalesce(a + c) == a + Coalesce(c)
    decreases |a|
  {
    if a == [] {
      assert a + c == c;
    } else {
      PrefixTail(a, c);
      CoalescePrefix(a[1..], c);
      assert |a| > 1 ==> !(a[1 - 1].isFree && a[1].isFree);
      PrefixFront(a, c);
      HeadTail(a, Coalesce(c));
    }
  }

  /** The prefix without its first block still meets `CoalescePrefix`'s requirements. */
  lemma PrefixTail(a: seq<Block>, c: seq<Block>)
    requires NoAdjacentFree(a) && a != []
    requires c == [] || !(a[|a| - 1].isFree && c[0].isFree)
    ensures NoAdjacentFree(a[1..])
    ensures a[1..] == [] || c == [] || !(a[1..][|a[1..]| - 1].isFree && c[0].isFree)
  {
    NoAdjacentFreeSlice(a, 1, |a|);
    assert a[1..|a|] == a[1..];
  }

  /** The first block of the prefix is kept by the sweep. */
  lemma PrefixFront(a: seq<Block>, c: seq<Block>)
    requires a != [] && (|a| > 1 ==> !(a[0].isFree && a[1].isFree))
    requires c == [] || !(a[|a| - 1].isFree && c[0].isFree)
    ensures Coalesce(a + c) == [a[0]] + Coalesce(a[1..] + c)
  {
    var t := a[1..] + c;
    assert |a| > 1 ==> t[0] == a[1];
    assert |a| == 1 ==> t == c;
    HeadTail(a, c);
    CoalesceCons(a[0], t);
  }

  lemma HeadTail(a: seq<Block>, c: seq<Block>)
    requires a != []
    ensures a + c == [a[0]] + (a[1..] + c)
  {
    assert a == [a[0]] + a[1..];
  }

  // ---------------------------------------------------------------------------
  // Deallocation: `deallocate` once the block is found

  /** Freeing the block at index `i` and running the merge sweep. */
  function Release(s: seq<Block>, i: nat): (r: seq<Block>)
    requires i < |s|
    ensures NoAdjacentFree(r) && 0 < |r| <= |s|
    ensures r[0].start == s[0].start
    ensures i > 0 ==> r[0].isFree == s[0].isFree
  {
    Coalesce(s[i := s[i].Freed()])
  }

  /** Releasing any block of a registry gives a registry over the same range;
      the covered units are unchanged and only starts that existed remain. */
  lemma ReleaseKeepsRegistry(s: seq<Block>, total: int, i: nat)
    requires IsRegistry(s, total) && i < |s|
    ensures IsRegistry(Release(s, i), total)
    ensures Sum(Release(s, i)) == Sum(s)
    ensures Starts(Release(s, i)) <= Starts(s)
  {
    var t := s[i := s[i].Freed()];
    TilesSameExtents(s, t, 0, total);
    CoalesceTiles(t, 0, total);
    CoalesceWellFormed(t);
    CoalesceSum(t);
    CoalesceStarts(t);
    TilesEnd(s, 0, total);
    TilesEnd(t, 0, total);
    assert Starts(t) == Starts(s) by {
      forall x | x in Starts(t) ensures x in Starts(s) {
        var k :| 0 <= k < |t| && t[k].start == x;
        assert s[k].start == x;
      }
      forall x | x in Starts(s) ensures x in Starts(t) {
        var k :| 0 <= k < |s| && s[k].start == x;
        assert t[k].start == x;
      }
    }
  }

  /** A slice of a list without two consecutive free blocks has none either. */
  lemma NoAdjacentFreeSlice(s: seq<Block>, lo: nat, hi: nat)
    requires NoAdjacentFree(s) && lo <= hi <= |s|
    ensures NoAdjacentFree(s[lo..hi])
  {
    forall k | 0 < k < hi - lo ensures !(s[lo..hi][k - 1].isFree && s[lo..hi][k].isFree) {
      assert s[lo..hi][k - 1] == s[lo + k - 1] && s[lo..hi][k] == s[lo + k];
    }
  }

  /** Allocating a block to a process that owns nothing and then deallocating
      that process restores the layout the registry had before. */
  lemma PlaceThenRelease(s: seq<Block>, total: int, i: nat, p: string, size: int, used: int)
    requires IsRegistry(s, total) && i < |s| && s[i].isFree && s[i].size >= size > 0
    requires 0 <= used <= size
    requires forall k :: 0 <= k < |s| ==> !s[k].OwnedBy(p)
    ensures IsFirstOwnedBy(Place(s, i, p, size, used), p, i)
    ensures SameLayout(Release(Place(s, i, p, size, used), i), s)
  {
    var r := Place(s, i, p, size, used);
    PlaceKeepsRegistry(s, total, i, p, size, used);
    assert forall k :: 0 <= k < i ==> r[k] == s[k] by {
      if s[i].size != size {
        assert forall k :: 0 <= k < i ==> r[k] == r[..i][k] == s[k];
      }
    }
    if s[i].size == size {
      ExactPlaceThenRelease(s, i, p, used);
    } else {
      SplitPlaceThenRelease(s, i, p, size, used);
    }
  }

  lemma ExactPlaceThenRelease(s: seq<Block>, i: nat, p: string, used: int)
    requires AllWellFormed(s) && NoAdjacentFree(s) && i < |s| && s[i].isFree
    ensures SameLayout(Release(Place(s, i, p, s[i].size, used), i), s)
  {
    var r := Place(s, i, p, s[i].size, used);
    var t := r[i := r[i].Freed()];
    assert t == s[i := s[i].(used := used)];
    assert NoAdjacentFree(t) by {
      forall k | 0 < k < |t| ensures !(t[k - 1].isFree && t[k].isFree) {
        assert t[k - 1].isFree == s[k - 1].isFree && t[k].isFree == s[k].isFree;
      }
    }
    CoalesceFixpoint(t);
  }

  /** Two free blocks between owned neighbours merge into one, and nothing else changes. */
  lemma CoalesceFreePair(a: seq<Block>, o: Block, f: Block, b: seq<Block>)
    requires NoAdjacentFree(a) && NoAdjacentFree(b) && o.isFree && f.isFree
    requires a == [] || !a[|a| - 1].isFree
    requires b == [] || !b[0].isFree
    ensures Coalesce(a + ([o, f] + b)) == a + ([o.IncreaseSize(f.size)] + b)
  {
    var m := o.IncreaseSize(f.size);
    CoalescePrefix(a, [o, f] + b);
    assert Coalesce([o, f] + b) == Coalesce([m] + b) by {
      assert ([o, f] + b)[2..] == b;
    }
    CoalescePrefix([m], b);
    CoalesceFixpoint(b);
  }

  /** Freeing the owned half of a split leaves the two free halves side by side. */
  lemma SplitFreedShape(s: seq<Block>, i: nat, p: string, size: int, used: int)
    requires i < |s| && s[i].size != size && 0 <= used
    ensures var r := Place(s, i, p, size, used);
      r[i := r[i].Freed()] ==
        s[..i] + ([Block(s[i].start, size, used, "", true),
                   FreeBlock(s[i].start + size, s[i].size - size)] + s[i + 1..])
  {
    var r := Place(s, i, p, size, used);
    var t := r[i := r[i].Freed()];
    assert t[..i] == s[..i] && t[i + 2..] == s[i + 1..];
    assert t == t[..i] + ([t[i], t[i + 1]] + t[i + 2..]);
  }

  lemma SplitPlaceThenRelease(s: seq<Block>, i: nat, p: string, size: int, used: int)
    requires AllWellFormed(s) && NoAdjacentFree(s) && i < |s| && s[i].isFree
    requires s[i].size > size && 0 <= used
    ensures SameLayout(Release(Place(s, i, p, size, used), i), s)
  {
    var r := Place(s, i, p, size, used);
    var a, b := s[..i], s[i + 1..];
    var o := Block(s[i].start, size, used, "", true);
    var f := FreeBlock(s[i].start + size, s[i].size - size);
    SplitFreedShape(s, i, p, size, used);
    FreeNeighbours(s, i);
    CoalesceFreePair(a, o, f, b);
    assert Release(r, i) == a + ([o.IncreaseSize(f.size)] + b);
    assert s[i].WellFormed();
    assert o.IncreaseSize(f.size) == s[i].(used := used);
    RestoredLayout(s, i, used);
  }

  /** Around a free block of a list with no adjacent free blocks, both sides
      have no adjacent free blocks and the blocks next to it are owned. */
  lemma FreeNeighbours(s: seq<Block>, i: nat)
    requires NoAdjacentFree(s) && i < |s| && s[i].isFree
    ensures NoAdjacentFree(s[..i]) && NoAdjacentFree(s[i + 1..])
    ensures s[..i] == [] || !s[..i][|s[..i]| - 1].isFree
    ensures s[i + 1..] == [] || !s[i + 1..][0].isFree
  {
    NoAdjacentFreeSlice(s, 0, i);
    NoAdjacentFreeSlice(s, i + 1, |s|);
    assert s[0..i] == s[..i] && s[i + 1..|s|] == s[i + 1..];
  }

  /** Putting the block at `i` back whole, with only its used figure changed,
      restores the layout. */
  lemma RestoredLayout(s: seq<Block>, i: nat, used: int)
    requires i < |s| && s[i].isFree && s[i].size > 0
    ensures SameLayout(s[..i] + ([s[i].(used := used)] + s[i + 1..]), s)
  {
    assert s[..i] + ([s[i].(used := used)] + s[i + 1..]) == s[i := s[i].(used := used)];
  }
}
