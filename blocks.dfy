/**
 * One block of the simulated address space: the record `MemoryBlock`.
 * A block covers the extent [start, start + size); it is either free or
 * owned by the process named `process`, and `used` is how much of an owned
 * block the process really uses (the rest is internal fragmentation).
 */
module Blocks {

  datatype Block = Block(start: int, size: int, used: int, process: string, isFree: bool)
  {
    /** The first address after the block. */
    function End(): int { start + size }

    /** What every block of a well-kept registry satisfies: a non-empty extent,
        a used figure within the extent, and no owner name on a free block. */
    predicate WellFormed()
    {
      size > 0 && 0 <= used <= size && (isFree ==> process == "")
    }

    /** Owned by the process named `p`. */
    predicate OwnedBy(p: string)
    {
      !isFree && process == p
    }

    /** `MemoryBlock::free`: the block becomes free and loses its owner name;
        position, size and used figure stay. */
    function Freed(): (r: Block)
      ensures r.isFree && r.process == ""
      ensures r.start == start && r.End() == End() && r.used == used
      ensures WellFormed() ==> r.WellFormed()
    {
      this.(isFree := true, process := "")
    }

    /** `MemoryBlock::allocate(p, u)`: the block becomes owned by `p` with used
        figure `u`; freeing it again gives back the free block, used figure aside. */
    function AllocatedTo(p: string, u: int): (r: Block)
      ensures r.OwnedBy(p) && r.used == u
      ensures r.start == start && r.End() == End()
      ensures size > 0 && 0 <= u <= size ==> r.WellFormed()
      ensures isFree && process == "" ==> r.Freed() == this.(used := u)
    {
      this.(isFree := false, process := p, used := u)
    }

    /** `MemoryBlock::increaseSize`, used when a following block is absorbed. */
    function IncreaseSize(additional: int): (r: Block)
      ensures r.start == start && r.End() == End() + additional
      ensures r.isFree == isFree && r.process == process && r.used == used
      ensures WellFormed() && additional >= 0 ==> r.WellFormed()
    {
      this.(size := size + additional)
    }
  }

  /** The constructor `MemoryBlock(s, sz, p, free, u)`: a used figure of -1
      (the default) stands for the whole block. */
  function MakeBlock(s: int, sz: int, p: string, free: bool, u: int): (b: Block)
    ensures b.start == s && b.size == sz && b.process == p && b.isFree == free
    ensures u == -1 ==> b.used == sz
    ensures u != -1 ==> b.used == u
    ensures sz > 0 && (u == -1 || 0 <= u <= sz) && (free ==> p == "") ==> b.WellFormed()
  {
    Block(s, sz, if u == -1 then sz else u, p, free)
  }

  /** `MemoryBlock(s, sz, "", true)`: a free block with the default used figure. */
  function FreeBlock(s: int, sz: int): (b: Block)
    ensures b.isFree && b.process == "" && b.start == s && b.size == sz && b.used == sz
    ensures sz > 0 ==> b.WellFormed()
  {
    MakeBlock(s, sz, "", true, -1)
  }
}
