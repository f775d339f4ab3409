/**
A resizable range of blocks that belongs to one container.
*/
module Extents {
  import opened Blocks
  import opened Runs
  import opened Wrappers
  import A = Allocator
  import F = FreeSpace
  import MetaPool

  /** What a reallocation means for the blocks of one extent. */
  lemma AfterReallocation(before: seq<Block>, after: seq<Block>, live: set<nat>, live': set<nat>, pool: set<nat>,
                          x: F.Extent, to: nat, newSize: nat)
    requires A.Reallocated(before, after, live, live', pool, x, to, newSize)
    requires x.End() <= |before| && to + newSize <= |after|
    ensures live' - Range(to, to + newSize) == live - x.Blocks() && Range(to, to + newSize) <= live'
    ensures var k := Least(x.size, newSize); after[to..to + newSize][..k] == before[x.block..x.End()][..k]
    ensures A.Kept(before, after, pool + x.Blocks())
  {
    var k := Least(x.size, newSize);
    assert after[to..to + newSize][..k] == after[to..to + k];
    assert before[x.block..x.End()][..k] == before[x.block..x.block + k];
  }

  /** Handed out blocks lie in the file. */
  lemma InFile(alloc: A.Allocator, to: nat, n: nat)
    requires alloc.Valid() && n > 0 && Range(to, to + n) <= alloc.Live()
    ensures to + n <= |alloc.engine.blocks|
  {}

  lemma LiveIsNotPool(alloc: A.Allocator)
    ensures alloc.Live() !! alloc.Pool()
  {}

  /** Writing into an extent that was just resized touches, of the old file, only its old blocks and the pool. */
  lemma WroteOwn(before: seq<Block>, b1: seq<Block>, after: seq<Block>, owned: set<nat>, pool: set<nat>, own: set<nat>,
                 owned': set<nat>, pool': set<nat>, own': set<nat>)
    requires A.Kept(before, b1, pool + own) && A.Kept(b1, after, own')
    requires A.OnlyNew(owned, owned', |before|) && own' <= owned' - pool'
    requires (owned' - pool') - own' == (owned - pool) - own
    ensures A.Kept(before, after, pool + own)
  {}

  class Extent {
    const alloc: A.Allocator
    var start: Option<nat>
    var size: nat

    ghost predicate Valid()
      reads this, alloc, alloc.engine
    {
      && alloc.Valid()
      && (start.Some? <==> size > 0)
      && Own() <= alloc.Live()
      && (start.Some? ==> start.value + size <= |alloc.engine.blocks|)
    }

    /** The blocks of this extent. */
    ghost function Own(): set<nat>
      reads this
    {
      if start.Some? then Range(start.value, start.value + size) else {}
    }

    ghost function Content(): (c: seq<Block>)
      requires Valid()
      reads this, alloc, alloc.engine
      ensures |c| == size
    {
      if start.Some? then alloc.engine.blocks[start.value..start.value + size] else []
    }

    constructor (alloc: A.Allocator)
      requires alloc.Valid()
      ensures Valid() && this.alloc == alloc && size == 0
    {
      this.alloc, start, size := alloc, None, 0;
    }

    /** The block number of the block with the given index in this extent. */
    method Get(index: nat) returns (r: Result<nat, A.Error>)
      requires Valid()
      ensures r.Success? <==> index < size
      ensures r.Success? ==> r.value in Own() && r.value < |alloc.engine.blocks| && alloc.engine.blocks[r.value] == Content()[index]
      ensures r.Failure? ==> r.error == A.BadArgument
    {
      if index >= size {
        return Failure(A.BadArgument);
      }
      return Success(start.value + index);
    }

    /** Writes into one block through a handle. */
    method Write(index: nat, offset: nat, data: seq<byte>)
      requires Valid() && index < size && offset + |data| <= alloc.engine.blockSize
      modifies alloc.engine
      ensures Valid() && |Content()[index]| == |old(Content())[index]| == alloc.engine.blockSize
      ensures Content() == old(Content())[index := Splice(old(Content())[index], offset, data)]
      ensures A.Kept(old(alloc.engine.blocks), alloc.engine.blocks, Own())
    {
      hide MetaPool.Split, F.Canonical, A.Placed, Count, Range, Flat;
      ghost var before := alloc.engine.blocks;
      alloc.engine.Poke(start.value + index, offset, data);
      A.Copied(before, alloc.engine.blocks, start.value, size);
      assert Content() == old(Content())[index := Splice(old(Content())[index], offset, data)];
    }

    /** Replaces one block by zeroes. */
    method OverwriteZero(index: nat)
      requires Valid() && index < size
      modifies alloc.engine
      ensures Valid() && Content() == old(Content())[index := Zeros(alloc.engine.blockSize)]
      ensures A.Kept(old(alloc.engine.blocks), alloc.engine.blocks, Own())
    {
      Write(index, 0, Zeros(alloc.engine.blockSize));
      assert Splice(old(Content())[index], 0, Zeros(alloc.engine.blockSize)) == Zeros(alloc.engine.blockSize);
    }

    /** All blocks of the extent have the size of a block. */
    lemma ContentIsUniform()
      requires Valid()
      ensures Uniform(Content(), alloc.engine.blockSize)
    {}

    /** Gives all blocks back. */
    method Clear()
      requires Valid()
      modifies this, alloc, alloc.engine
      ensures Valid() && size == 0 && alloc.Live() == old(alloc.Live() - Own())
      ensures A.Kept(old(alloc.engine.blocks), alloc.engine.blocks, old(alloc.Pool() + Own()))
    {
      hide Range, A.Kept, A.Allocator.Valid;
      if size == 0 {
        A.KeptRefl(alloc.engine.blocks, alloc.Pool() + Own());
        return;
      }
      alloc.Free(start, size);
      start, size := None, 0;
    }

    /**
    Changes the number of blocks. What fits of the old content is kept, wherever the extent ends up,
    and nothing that is handed out to others changes.
    */
    method Resize(newSize: nat) returns (r: Outcome<A.Error>)
      requires Valid()
      modifies this, alloc, alloc.engine
      ensures Valid() && (r.Pass? <== alloc.canGrow) && alloc.canGrow == old(alloc.canGrow)
      ensures r.Pass? ==> size == newSize
      ensures r.Pass? ==> var k := Least(newSize, old(size)); Content()[..k] == old(Content())[..k]
      ensures r.Fail? ==> size == old(size) && Content() == old(Content())
      ensures alloc.Live() - Own() == old(alloc.Live() - Own())
      ensures A.OnlyNew(old(alloc.owned), alloc.owned, |old(alloc.engine.blocks)|)
      ensures A.Kept(old(alloc.engine.blocks), alloc.engine.blocks, old(alloc.Pool() + Own()))
    {
      hide Range, A.Kept, A.Reallocated, A.OnlyNew, A.Allocator.Valid, A.Allocator.Live, A.Allocator.Pool;
      A.KeptRefl(alloc.engine.blocks, alloc.Pool() + Own());
      A.KeptRefl(alloc.engine.blocks, {});
      A.OnlyNewExtent(alloc.owned, F.Extent(|alloc.engine.blocks|, 0));
      if newSize == size {
        return Pass;
      }
      LiveIsNotPool(alloc);
      ghost var x := F.Extent(if start.Some? then start.value else 0, size);
      ghost var before, live, pool, own := alloc.engine.blocks, alloc.Live(), alloc.Pool(), Own();
      var a := alloc.ReallocateAny(start, size, newSize);
      if a.Failure? {
        if start.Some? {
          assert own !! pool;
          A.SliceKept(before, alloc.engine.blocks, pool, x.block, size);
          InFile(alloc, x.block, size);
        }
        A.KeptTrans(before, before, alloc.engine.blocks, {}, pool, pool + own);
        return Fail(a.error);
      }
      if a.value.Some? {
        assert Range(a.value.value, a.value.value + newSize) <= alloc.Live() by {
          if start.Some? { ReallocatedIsLive(before, alloc.engine.blocks, live, alloc.Live(), pool, x, a.value.value, newSize); }
        }
        InFile(alloc, a.value.value, newSize);
        if start.Some? {
          AfterReallocation(before, alloc.engine.blocks, live, alloc.Live(), pool, x, a.value.value, newSize);
        } else {
          A.KeptTrans(before, before, alloc.engine.blocks, {}, pool, pool + own);
        }
      }
      start, size := a.value, newSize;
      return Pass;
    }
  }

  lemma ReallocatedIsLive(before: seq<Block>, after: seq<Block>, live: set<nat>, live': set<nat>, pool: set<nat>,
                          x: F.Extent, to: nat, newSize: nat)
    requires A.Reallocated(before, after, live, live', pool, x, to, newSize)
    ensures Range(to, to + newSize) <= live'
  {}
}
