/**
The heap: objects of any size behind stable references, on slotted pages or in runs of blocks.
*/
module Heaps {
  import opened Blocks
  import opened BigEndian
  import opened Pages
  import opened PageBytes
  import opened PageOps
  import opened Runs
  import opened RunIo
  import opened HeapState
  import opened HeapIndexes
  import opened Wrappers
  import A = Allocator
  import E = Extents
  import F = FreeSpace
  import LinearIo
  import T = BTree
  import BTreeErase

  datatype HeapError = BadAlloc | BadArgument | AssertionFailed

  /** With smaller blocks, a node of the free map cannot have four children. */
  const MIN_BLOCK_SIZE: nat := 72
  const MIN_PAGE_SIZE: nat := 129

  /** The least entry, in the order of the free map, with at least `size` bytes. */
  ghost predicate IsLowerBound(freeMap: set<FreeEntry>, size: nat, g: FreeEntry) {
    g in freeMap && g.available >= size && forall f :: f in freeMap && f.available >= size ==> f == g || g.Before(f)
  }

  class Heap {
    const alloc: A.Allocator

    /** The two indexes, their trees, and the blocks that hold the tree nodes. */
    var pageMap: map<nat, Entry>
    var freeMap: set<FreeEntry>
    var pageTree: T.Root
    var freeTree: T.Root
    var nodes: set<nat>

    var objectsCount: nat
    var objectsSize: nat
    var blocksCount: nat

    /** What the allocations hold, and the blocks that belong to them or are about to. */
    ghost var content: map<nat, Content>
    ghost var home: map<nat, nat>
    ghost var loose: set<nat>

    /** The live objects. */
    ghost var objects: map<Ref, seq<byte>>

    /**
    Whether an index was left inconsistent, which the library does not notice, and the entries of the
    index of pages that then lead to blocks that were given back; and which index was short of nodes, if any.
    */
    var damaged: bool
    ghost var short: Shortage
    ghost var stray: set<nat>

    ghost function Own(): set<nat>
      reads `home, `nodes, `loose
    {
      home.Keys + nodes + loose
    }

    /** All that the heap and the allocator may write to. */
    ghost function Mine(): set<nat>
      reads `home, `nodes, `loose, alloc
    {
      alloc.Pool() + Own()
    }

    ghost predicate Owning()
      reads `home, `nodes, `loose, `blocksCount, alloc, alloc.engine
    {
      && alloc.Valid() && home.Keys !! nodes && home.Keys !! loose && nodes !! loose && Own() <= alloc.Live()
      && blocksCount == Count(home.Keys + loose)
    }

    ghost predicate Held()
      reads `pageMap, `content, `home, alloc.engine
    {
      Structure(alloc.engine.blocks, alloc.engine.blockSize, pageMap, content, home)
    }

    ghost predicate Sound()
      reads `pageMap, `content, `home, `nodes, `loose, `blocksCount, `objects, alloc, alloc.engine
    {
      && Owning() && Held() && loose == {} && Flattened(objects, pageMap, content) && NoEmptyPages(pageMap, content)
      && MIN_BLOCK_SIZE <= alloc.engine.blockSize < U32_END
    }

    ghost predicate Indexed()
      reads `freeMap, `pageMap, `content
    {
      FreeOk(freeMap, pageMap, content)
    }

    ghost predicate Counted()
      reads `objectsCount, `objectsSize, `objects
    {
      objectsCount == |objects| && objectsSize == Weight(objects)
    }

    /** The trees hold exactly the entries of the indexes. */
    ghost predicate PagesListed(extra: set<nat>)
      reads `pageTree, `pageMap
    {
      alloc.engine.blockSize >= 4 && Mirrors(PageLimits(alloc.engine.blockSize), pageTree, BlockKeys(pageMap.Keys + extra))
    }

    ghost predicate FreeListed()
      reads `freeTree, `freeMap
    {
      alloc.engine.blockSize >= 4 && Mirrors(FreeLimits(alloc.engine.blockSize), freeTree, FreeKeys(freeMap))
    }

    /** Every node of the trees has a block, and unless a tree was torn, every block a node. */
    ghost predicate Noded(extra: nat)
      reads `nodes, `pageTree, `freeTree, `damaged
    {
      && T.Size(pageTree) + T.Size(freeTree) + extra <= Count(nodes)
      && (!damaged ==> T.Size(pageTree) + T.Size(freeTree) + extra == Count(nodes))
    }

    ghost predicate Listed()
      reads `pageTree, `pageMap, `freeTree, `freeMap, `nodes, `damaged
    {
      PagesListed({}) && FreeListed() && Noded(0)
    }

    ghost predicate Intact()
      reads `pageMap, `freeMap, `pageTree, `freeTree, `nodes, `blocksCount, `content, `home, `loose, `objects, `damaged, `stray, alloc, alloc.engine
    {
      Sound() && Indexed() && Listed() && !damaged && stray == {}
    }

    ghost predicate Valid()
      reads this, alloc, alloc.engine
    {
      Intact() && Counted()
    }

    /**
    What holds after an insertion that tore the root of an index: the objects that are left are in the
    index and in their blocks, and there may be stray entries and blocks that no entry leads to.
    */
    ghost predicate Wreck()
      reads `pageMap, `pageTree, `content, `home, `nodes, `loose, `blocksCount, `objects, `stray, alloc, alloc.engine
    {
      && Owning() && Structure(alloc.engine.blocks, alloc.engine.blockSize, pageMap - stray, content, home)
      && Flattened(objects, pageMap - stray, content) && NoEmptyPages(pageMap - stray, content)
      && PagesListed({}) && stray <= pageMap.Keys && stray !! Own()
    }

    // The parts of the invariants, for methods that do not look into them.

    lemma UnpackSound()
      requires Sound()
      ensures Owning() && Held() && loose == {} && Flattened(objects, pageMap, content) && NoEmptyPages(pageMap, content)
      ensures MIN_BLOCK_SIZE <= alloc.engine.blockSize < U32_END
    {}

    lemma PackSound()
      requires Owning() && Held() && loose == {} && Flattened(objects, pageMap, content) && NoEmptyPages(pageMap, content)
      requires MIN_BLOCK_SIZE <= alloc.engine.blockSize < U32_END
      ensures Sound()
    {}

    lemma Unpack()
      requires Intact()
      ensures Sound() && FreeOk(freeMap, pageMap, content) && PagesListed({}) && FreeListed() && Noded(0) && !damaged && stray == {}
      ensures Owning() && Held() && loose == {} && Flattened(objects, pageMap, content) && NoEmptyPages(pageMap, content)
      ensures MIN_BLOCK_SIZE <= alloc.engine.blockSize < U32_END
    {}

    lemma SoundNow()
      requires Intact()
      ensures Sound() && !damaged
    {}

    lemma Pack()
      requires Sound() && FreeOk(freeMap, pageMap, content) && PagesListed({}) && FreeListed() && Noded(0) && !damaged && stray == {}
      ensures Intact()
    {}

    lemma PackWreck()
      requires Owning() && Structure(alloc.engine.blocks, alloc.engine.blockSize, pageMap - stray, content, home)
      requires Flattened(objects, pageMap - stray, content) && NoEmptyPages(pageMap - stray, content)
      requires PagesListed({}) && stray <= pageMap.Keys && stray !! Own()
      ensures Wreck()
    {}

    lemma SoundIsWreck()
      requires Sound() && PagesListed({}) && stray == {}
      ensures Wreck() && LosesOnly(pageMap, objects, pageMap, objects, stray)
    {
      hide A.Allocator.Valid, Structure, Flattened, NoEmptyPages, Mirrors, BlockKeys;
      assert pageMap - stray == pageMap;
      AllSurvive(objects, pageMap, content, pageMap.Keys);
    }

    constructor (alloc: A.Allocator)
      requires alloc.Valid() && MIN_BLOCK_SIZE <= alloc.engine.blockSize < U32_END
      ensures Valid() && this.alloc == alloc && objects == map[] && Own() == {}
    {
      hide A.Allocator.Valid, Structure, FreeOk, Flattened, NoEmptyPages, Weight, Range;
      NothingStored(alloc.engine.blocks, alloc.engine.blockSize);
      NothingListed(alloc.engine.blockSize);
      this.alloc := alloc;
      pageMap, freeMap, nodes := map[], {}, {};
      pageTree, freeTree, damaged, short, stray := T.Empty, T.Empty, false, NoShortage, {};
      objectsCount, objectsSize, blocksCount := 0, 0, 0;
      content, home, loose, objects := map[], map[], {}, map[];
    }

    lemma PoolInside()
      requires Owning()
      ensures alloc.Pool() <= alloc.owned && Mine() <= alloc.owned && Own() !! alloc.Pool()
    {}

    // ---- Blocks and index nodes.

    /** Takes `n` blocks from the allocator. They are not part of any allocation yet. */
    method AllocateBlocks(n: nat) returns (r: Result<nat, HeapError>)
      requires Owning() && Held() && n > 0
      modifies this`loose, this`blocksCount, alloc, alloc.engine
      ensures Owning() && Held() && alloc.canGrow == old(alloc.canGrow)
      ensures Step(old(alloc.engine.blocks), old(alloc.owned), old(Mine()), alloc.engine.blocks, alloc.owned, Mine())
      ensures r.Success? ==> loose == old(loose) + Range(r.value, r.value + n)
      ensures r.Success? ==> Range(r.value, r.value + n) !! old(Own()) && Range(r.value, r.value + n) !! old(loose)
      ensures r.Success? ==> r.value + n <= |alloc.engine.blocks|
      ensures r.Failure? ==> r.error == BadAlloc && !alloc.canGrow && loose == old(loose)
    {
      hide A.Allocator.Valid, Structure, Range, Count, A.Kept, A.OnlyNew, A.Places, A.Chunk, A.Allocator.Settled, Step;
      PoolInside();
      var a := alloc.Allocate(n);
      StructureKept(old(alloc.engine.blocks), alloc.engine.blocks, alloc.engine.blockSize, pageMap, content, home, old(alloc.Pool()));
      AllocatorInside(alloc);
      ghost var taken: set<nat> := if a.Success? then Range(a.value, a.value + n) else {};
      StepAllocate(old(alloc.engine.blocks), old(alloc.owned), old(alloc.Pool()), Own(), alloc.engine.blocks, alloc.owned, alloc.Pool(), taken);
      if a.Failure? {
        assert Own() + {} == Own();
        return Failure(BadAlloc);
      }
      RangeSize(a.value, a.value + n);
      CountUnion(home.Keys + loose, taken);
      assert home.Keys + (loose + taken) == home.Keys + loose + taken;
      loose := loose + taken;
      blocksCount := blocksCount + n;
      assert Own() == old(Own()) + taken;
      E.InFile(alloc, a.value, n);
      return Success(a.value);
    }

    /** Gives blocks back that are not part of any allocation. */
    method FreeBlocks(c: nat, n: nat)
      requires Owning() && Held() && n > 0 && Range(c, c + n) <= loose
      modifies this`loose, this`blocksCount, alloc, alloc.engine
      ensures Owning() && Held() && alloc.canGrow == old(alloc.canGrow) && loose == old(loose) - Range(c, c + n)
      ensures Step(old(alloc.engine.blocks), old(alloc.owned), old(Mine()), alloc.engine.blocks, alloc.owned, Mine())
    {
      hide A.Allocator.Valid, Structure, Range, Count, A.Kept, A.OnlyNew, Step;
      ghost var gone := Range(c, c + n);
      PoolInside();
      RangeSize(c, c + n);
      CountMinus(home.Keys + loose, gone);
      assert home.Keys + (loose - gone) == home.Keys + loose - gone;
      alloc.Free(Some(c), n);
      StructureKept(old(alloc.engine.blocks), alloc.engine.blocks, alloc.engine.blockSize, pageMap, content, home, old(alloc.Pool()) + gone);
      AllocatorInside(alloc);
      StepFree(old(alloc.engine.blocks), alloc.owned, old(alloc.Pool()), Own(), alloc.engine.blocks, alloc.Pool(), gone);
      loose := loose - gone;
      blocksCount := blocksCount - n;
      assert Own() == old(Own()) - gone;
    }

    /** Nodes of the index trees are rewritten in ways that do not matter here. */
    method RewriteNodes()
      requires Owning() && Held()
      modifies alloc.engine
      ensures Owning() && Held()
      ensures Step(old(alloc.engine.blocks), alloc.owned, Mine(), alloc.engine.blocks, alloc.owned, Mine())
    {
      hide Structure, Range, Count, A.Kept, A.OnlyNew, Step, F.Canonical, Uniform;
      PoolInside();
      alloc.Scribble(nodes);
      StructureKept(old(alloc.engine.blocks), alloc.engine.blocks, alloc.engine.blockSize, pageMap, content, home, nodes);
      StepWrite(old(alloc.engine.blocks), alloc.engine.blocks, alloc.owned, Mine(), nodes);
    }

    /** Inserts into one of the indexes, with as many blocks for new tree nodes as there are. */
    method IndexInsert(l: T.Limits, tree: T.Root, k: T.Key, ghost keys: set<T.Key>) returns (o: T.Outcome)
      requires Owning() && Held() && Mirrors(l, tree, keys) && k !in keys
      modifies this`nodes, alloc, alloc.engine
      ensures Owning() && Held() && alloc.canGrow == old(alloc.canGrow) && (alloc.canGrow ==> o.done)
      ensures Step(old(alloc.engine.blocks), old(alloc.owned), old(Mine()), alloc.engine.blocks, alloc.owned, Mine())
      ensures Count(nodes) >= old(Count(nodes)) && o == T.TryInsert(l, tree, k, Count(nodes) - old(Count(nodes)))
      ensures o.done ==> Count(nodes) - old(Count(nodes)) == T.Size(o.root) - T.Size(tree)
    {
      hide A.Allocator.Valid, Structure, Range, Count, A.Kept, A.OnlyNew, Step, Heap.Owning, Heap.Held, T.Valid, T.Holds, T.TryInsert, T.Insert, T.Size;
      T.InsertOk(l, tree, k);
      var n, needed := 0, T.Size(T.Insert(l, tree, k)) - T.Size(tree);
      var ok := true;
      PoolInside();
      StepRefl(alloc.engine.blocks, alloc.owned, Mine());
      while n < needed && ok
        invariant n <= needed && Owning() && Held() && alloc.canGrow == old(alloc.canGrow) && (alloc.canGrow ==> ok)
        invariant Step(old(alloc.engine.blocks), old(alloc.owned), old(Mine()), alloc.engine.blocks, alloc.owned, Mine())
        invariant Count(nodes) == old(Count(nodes)) + n
        decreases needed - n, ok
      {
        ghost var b1, o1, m1 := alloc.engine.blocks, alloc.owned, Mine();
        ok := TakeNode();
        StepTrans(old(alloc.engine.blocks), old(alloc.owned), old(Mine()), b1, o1, m1, alloc.engine.blocks, alloc.owned, Mine());
        n := if ok then n + 1 else n;
      }
      ghost var b1, o1, m1 := alloc.engine.blocks, alloc.owned, Mine();
      RewriteNodes();
      StepTrans(old(alloc.engine.blocks), old(alloc.owned), old(Mine()), b1, o1, m1, alloc.engine.blocks, alloc.owned, Mine());
      MirrorInsert(l, tree, keys, k, n);
      o := T.TryInsert(l, tree, k, n);
    }

    method TakeNode() returns (ok: bool)
      requires Owning() && Held()
      modifies this`nodes, alloc, alloc.engine
      ensures Owning() && Held() && alloc.canGrow == old(alloc.canGrow) && (alloc.canGrow ==> ok)
      ensures Count(nodes) == old(Count(nodes)) + if ok then 1 else 0
      ensures Step(old(alloc.engine.blocks), old(alloc.owned), old(Mine()), alloc.engine.blocks, alloc.owned, Mine())
    {
      hide A.Allocator.Valid, Structure, Count, A.Kept, A.OnlyNew, A.Places, A.Chunk, A.Allocator.Settled, Step;
      PoolInside();
      var a := alloc.Allocate(1);
      StructureKept(old(alloc.engine.blocks), alloc.engine.blocks, alloc.engine.blockSize, pageMap, content, home, old(alloc.Pool()));
      AllocatorInside(alloc);
      ghost var taken: set<nat> := if a.Success? then {a.value} else {};
      assert a.Success? ==> Range(a.value, a.value + 1) == taken;
      StepAllocate(old(alloc.engine.blocks), old(alloc.owned), old(alloc.Pool()), Own(), alloc.engine.blocks, alloc.owned, alloc.Pool(), taken);
      if a.Failure? {
        assert Own() + {} == Own();
        return false;
      }
      CountOne(a.value);
      CountUnion(nodes, taken);
      nodes := nodes + {a.value};
      assert Own() == old(Own()) + taken;
      return true;
    }

    /** Gives blocks of tree nodes back. */
    method DropNodes(n: nat)
      requires Owning() && Held() && n <= Count(nodes)
      modifies this`nodes, alloc, alloc.engine
      ensures Owning() && Held() && alloc.canGrow == old(alloc.canGrow) && Count(nodes) == old(Count(nodes)) - n
      ensures Step(old(alloc.engine.blocks), old(alloc.owned), old(Mine()), alloc.engine.blocks, alloc.owned, Mine())
    {
      hide A.Allocator.Valid, Structure, Range, Count, A.Kept, A.OnlyNew, Step, Heap.Owning, Heap.Held;
      PoolInside();
      StepRefl(alloc.engine.blocks, alloc.owned, Mine());
      var i := 0;
      while i < n
        invariant i <= n && Owning() && Held() && alloc.canGrow == old(alloc.canGrow) && Count(nodes) == old(Count(nodes)) - i
        invariant Step(old(alloc.engine.blocks), old(alloc.owned), old(Mine()), alloc.engine.blocks, alloc.owned, Mine())
      {
        ghost var b1, o1, m1 := alloc.engine.blocks, alloc.owned, Mine();
        SomeNode();
        var b :| b in nodes;
        DropNode(b);
        StepTrans(old(alloc.engine.blocks), old(alloc.owned), old(Mine()), b1, o1, m1, alloc.engine.blocks, alloc.owned, Mine());
        i := i + 1;
      }
      ghost var b1, o1, m1 := alloc.engine.blocks, alloc.owned, Mine();
      RewriteNodes();
      StepTrans(old(alloc.engine.blocks), old(alloc.owned), old(Mine()), b1, o1, m1, alloc.engine.blocks, alloc.owned, Mine());
    }

    lemma SomeNode()
      requires Count(nodes) > 0
      ensures exists b :: b in nodes
    {
      assert nodes != {};
    }

    method DropNode(b: nat)
      requires Owning() && Held() && b in nodes
      modifies this`nodes, alloc, alloc.engine
      ensures Owning() && Held() && alloc.canGrow == old(alloc.canGrow) && Count(nodes) == old(Count(nodes)) - 1
      ensures Step(old(alloc.engine.blocks), old(alloc.owned), old(Mine()), alloc.engine.blocks, alloc.owned, Mine())
    {
      hide A.Allocator.Valid, Structure, Count, A.Kept, A.OnlyNew, Step;
      PoolInside();
      CountOne(b);
      CountMinus(nodes, {b});
      assert Range(b, b + 1) == {b};
      alloc.Free(Some(b), 1);
      StructureKept(old(alloc.engine.blocks), alloc.engine.blocks, alloc.engine.blockSize, pageMap, content, home, old(alloc.Pool()) + {b});
      AllocatorInside(alloc);
      StepFree(old(alloc.engine.blocks), alloc.owned, old(alloc.Pool()), Own(), alloc.engine.blocks, alloc.Pool(), {b});
      nodes := nodes - {b};
      assert Own() == old(Own()) - {b};
    }

    // ---- The index of free space.

    /**
    Enters a page into the free map. When blocks for tree nodes are missing, the free map stays as it
    was, unless its root is torn.
    */
    method InsertFree(f: FreeEntry) returns (ok: bool)
      requires Owning() && Held() && FreeListed() && Noded(0) && f !in freeMap && !damaged
      modifies this`freeMap, this`freeTree, this`nodes, this`damaged, this`short, alloc, alloc.engine
      ensures Owning() && Held() && FreeListed() && Noded(0) && alloc.canGrow == old(alloc.canGrow)
      ensures Step(old(alloc.engine.blocks), old(alloc.owned), old(Mine()), alloc.engine.blocks, alloc.owned, Mine())
      ensures if ok then !damaged && freeMap == old(freeMap) + {f} else !alloc.canGrow
      ensures !ok && !damaged ==> freeMap == old(freeMap)
      ensures !ok ==> freeMap < old(freeMap) + {f}
      ensures damaged <==> short == SpaceNodes(1) && T.RootFull(FreeLimits(alloc.engine.blockSize), old(freeTree))
      ensures Count(nodes) >= old(Count(nodes)) && short == if ok then NoShortage else SpaceNodes(Count(nodes) - old(Count(nodes)))
    {
      hide A.Allocator.Valid, Structure, Range, Count, Step, Heap.Owning, Heap.Held, Mirrors, T.Valid, T.TryInsert, T.Size, FreeKey, FreeKeys, T.RootFull, Heap.Mine;
      var l := FreeLimits(alloc.engine.blockSize);
      FreeKeysWith(freeMap, f);
      var o := IndexInsert(l, freeTree, FreeKey(f), FreeKeys(freeMap));
      ghost var n := Count(nodes) - old(Count(nodes));
      SpaceInserted(l, freeTree, freeMap, f, n);
      freeTree := o.root;
      if o.done {
        freeMap := freeMap + {f};
      } else if o.torn {
        damaged, freeMap := true, KeptEntries(l, freeTree, freeMap + {f});
      }
      ok, short := o.done, if o.done then NoShortage else SpaceNodes(n);
    }

    method EraseFree(f: FreeEntry)
      requires Owning() && Held() && FreeListed() && Noded(0)
      modifies this`freeMap, this`freeTree, this`nodes, alloc, alloc.engine
      ensures Owning() && Held() && FreeListed() && Noded(0) && alloc.canGrow == old(alloc.canGrow) && freeMap == old(freeMap) - {f}
      ensures Step(old(alloc.engine.blocks), old(alloc.owned), old(Mine()), alloc.engine.blocks, alloc.owned, Mine())
    {
      hide A.Allocator.Valid, Structure, Range, Count, Step, Heap.Owning, Heap.Held, T.Valid, T.Holds, T.Size, FreeKey, FreeKeys, BTreeErase.Erase;
      var l := FreeLimits(alloc.engine.blockSize);
      FreeKeysWithout(freeMap, f);
      MirrorErase(l, freeTree, FreeKeys(freeMap), FreeKey(f));
      var tree := BTreeErase.Erase(l, freeTree, FreeKey(f));
      DropNodes(T.Size(freeTree) - T.Size(tree));
      freeMap, freeTree := freeMap - {f}, tree;
    }

    // ---- Pages.

    lemma SameKeys()
      requires Held()
      ensures content.Keys == pageMap.Keys
    {}

    lemma BlockSizeIs(c: nat)
      requires Owning() && c < |alloc.engine.blocks|
      ensures |alloc.engine.blocks[c]| == alloc.engine.blockSize
    {}

    /** Opens the page of a block. */
    method ReadPage(c: nat) returns (page: PageHandle)
      requires Owning() && Held() && c in pageMap && !pageMap[c].large
      ensures fresh(page) && page.Valid() && c in content && c < |alloc.engine.blocks|
      ensures page.block == alloc.engine.blocks[c] && |page.block| == alloc.engine.blockSize
      ensures Content(page.page, page.Contents()) == content[c]
    {
      hide Structure, Shows, Ok, Placed, Objects, F.Canonical, A.Placed, Range;
      PageOf(alloc.engine.blocks, alloc.engine.blockSize, pageMap, content, home, c);
      page := new PageHandle(alloc.engine.blocks[c], content[c].page);
    }

    /** Writes a page back to its block. */
    method StorePage(c: nat, page: PageHandle)
      requires Owning() && Held() && c in pageMap && !pageMap[c].large && page.Valid() && |page.block| == alloc.engine.blockSize
      modifies this`content, alloc.engine
      ensures Owning() && Held() && content == old(content)[c := Content(page.page, page.Contents())]
      ensures Step(old(alloc.engine.blocks), alloc.owned, Mine(), alloc.engine.blocks, alloc.owned, Mine())
      ensures alloc.engine.blocks == old(alloc.engine.blocks)[c := page.block]
    {
      hide Structure, Range, Count, A.Kept, A.OnlyNew, Step, F.Canonical, Uniform, PageHolds, EntryOk, Shows, Ok, Placed, Objects, Flat;
      PoolInside();
      ghost var b0 := alloc.engine.blocks;
      PageOf(b0, alloc.engine.blockSize, pageMap, content, home, c);
      alloc.engine.Overwrite(c, page.block);
      assert page.block + Zeros(0) == page.block;
      WrittenBlock(b0, c, page.block);
      ghost var x := Content(page.page, page.Contents());
      PageIsHeld(page);
      PageEntry(c, page.block, alloc.engine.blocks, alloc.engine.blockSize, x);
      StructureSet(b0, alloc.engine.blocks, alloc.engine.blockSize, pageMap, content, home, c, x);
      OneBlock(c);
      StepWrite(b0, alloc.engine.blocks, alloc.owned, Mine(), Range(c, c + 1));
      content := content[c := x];
    }

    // ---- Small objects.

    /** The page with the least space that is enough for `size` bytes. */
    method LowerBound(size: nat) returns (r: Option<FreeEntry>)
      ensures r.None? ==> forall f :: f in freeMap ==> f.available < size
      ensures r.Some? ==> IsLowerBound(freeMap, size, r.value)
    {
      r := None;
      var rest := freeMap;
      while rest != {}
        invariant rest <= freeMap
        invariant r.None? ==> forall f :: f in freeMap - rest ==> f.available < size
        invariant r.Some? ==> r.value in freeMap && r.value.available >= size
        invariant r.Some? ==> forall f :: f in freeMap - rest && f.available >= size ==> f == r.value || r.value.Before(f)
        decreases rest
      {
        var f :| f in rest;
        if f.available >= size && (r.None? || f.Before(r.value)) {
          r := Some(f);
        }
        rest := rest - {f};
      }
    }

    /** Opens a page and puts a new object on it. The page is not written back yet. */
    method PlaceObject(c: nat, data: seq<byte>) returns (page: PageHandle, i: nat)
      requires Owning() && Held() && c in pageMap && !pageMap[c].large && c in content
      requires 0 < |data| <= EffectiveFree(content[c].page)
      ensures fresh(page) && page.Valid() && |page.block| == alloc.engine.blockSize
      ensures i !in content[c].objects && page.Contents() == content[c].objects[i := data]
      ensures EffectiveFree(page.page) < EffectiveFree(content[c].page)
      ensures i < |page.page.slots| && SameShape(Freed(page.page, i).slots, content[c].page.slots)
      ensures forall j :: 0 <= j < i ==> j in content[c].objects
    {
      hide PageHandle.Valid, PageHandle.Contents, EffectiveFree, Freed, SameShape, Heap.Owning, Heap.Held;
      page := ReadPage(c);
      SlotsInUse(page);
      i := PageAllocate(page, |data|);
      WriteObject(page, i, data);
      assert page.Contents() == content[c].objects[i := data];
    }

    /** Writes a page with a new object back and removes the old free map entry of the page; the new one is there. */
    method Commit(f: FreeEntry, page: PageHandle, i: nat, data: seq<byte>, available: nat, ghost free: set<FreeEntry>)
      requires Sound() && FreeListed() && Noded(0) && f in free && f.block in content && page.Valid() && |page.block| == alloc.engine.blockSize
      requires FreeOk(free, pageMap, content) && available == EffectiveFree(page.page) < f.available
      requires freeMap == free + if available > 0 then {FreeEntry(available, f.block)} else {}
      requires i !in content[f.block].objects && page.Contents() == content[f.block].objects[i := data] && i < |page.page.slots|
      requires f.block in pageMap && !pageMap[f.block].large
      modifies `freeMap, `freeTree, `nodes, `content, `objects, alloc, alloc.engine
      ensures Sound() && Indexed() && FreeListed() && Noded(0) && alloc.canGrow == old(alloc.canGrow)
      ensures Ref(false, f.block, i) !in old(objects) && objects == old(objects)[Ref(false, f.block, i) := data]
      ensures freeMap == free - {f} + if available > 0 then {FreeEntry(available, f.block)} else {}
      ensures Step(old(alloc.engine.blocks), old(alloc.owned), old(Mine()), alloc.engine.blocks, alloc.owned, Mine())
    {
      hide A.Allocator.Valid, Structure, Range, Count, Step, FreeOk, Flattened, NoEmptyPages, PageHandle.Valid, PageHandle.Contents,
           EffectiveFree, Freed, SameShape, Heap.Owning, Heap.Held, EntryFor, Mirrors, Heap.Noded;
      var c := f.block;
      EntryFound(free, pageMap, content, f);
      ghost var x := Content(page.page, page.Contents());
      FreeSet(free, pageMap, content, c, x);
      EntryIs(page.page, c, available);
      EraseFree(f);
      assert freeMap == free - {f} + if available > 0 then {FreeEntry(available, c)} else {};
      ghost var b1, o1, m1 := alloc.engine.blocks, alloc.owned, Mine();
      StorePage(c, page);
      StepTrans(old(alloc.engine.blocks), old(alloc.owned), old(Mine()), b1, o1, m1, alloc.engine.blocks, alloc.owned, Mine());
      FlattenedNew(objects, pageMap, old(content), c, i);
      FlattenedSet(objects, pageMap, old(content), c, x, i, data);
      NoEmptySet(pageMap, old(content), c, x);
      objects := objects[Ref(false, c, i) := data];
    }

    /** Puts a new object on a page that has space for it. */
    method AllocateOnPage(f: FreeEntry, data: seq<byte>) returns (r: Result<Ref, HeapError>)
      requires Sound() && Indexed() && FreeListed() && Noded(0) && !damaged && short.NoShortage? && f in freeMap && 0 < |data| <= f.available
      modifies `freeMap, `freeTree, `nodes, `content, `objects, `damaged, `short, alloc, alloc.engine
      ensures Sound() && FreeListed() && Noded(0) && alloc.canGrow == old(alloc.canGrow) && (alloc.canGrow ==> r.Success?)
      ensures r.Success? ==> !damaged && r.value !in old(objects) && objects == old(objects)[r.value := data] && r.value.block == f.block
      ensures r.Success? ==> !r.value.large && Filled(FullPages(pageMap, old(freeMap)), FullPages(pageMap, freeMap), f.block)
      ensures r.Success? ==> LeastSlot(old(objects), r.value)
      ensures !damaged ==> Indexed()
      ensures r.Failure? ==> r.error == BadAlloc && !alloc.canGrow && objects == old(objects)
      ensures r.Failure? && !damaged ==> freeMap == old(freeMap)
      ensures (damaged <==> short == SpaceNodes(1) && T.RootFull(FreeLimits(alloc.engine.blockSize), old(freeTree))) && (short.NoShortage? <==> r.Success?)
      ensures !r.Success? ==> short.SpaceNodes?
      ensures Step(old(alloc.engine.blocks), old(alloc.owned), old(Mine()), alloc.engine.blocks, alloc.owned, Mine())
    {
      hide A.Allocator.Valid, Structure, Range, Count, Step, FreeOk, Flattened, NoEmptyPages, PageHandle.Valid, PageHandle.Contents,
           EffectiveFree, Freed, SameShape, Heap.Owning, Heap.Held, EntryFor, Mirrors, Heap.Noded, T.RootFull, FullPages, LeastSlot;
      var c := f.block;
      EntryFound(freeMap, pageMap, content, f);
      var page, i := PlaceObject(c, data);
      IsLeastSlot(objects, pageMap, content, c, i);
      var available := page.EffectiveFreeBytes();
      assert page.Contents() - {i} == content[c].objects;
      var ok := OfferSpace(c, available, page, i);
      if !ok {
        return Failure(BadAlloc);
      }
      ghost var b1, o1, m1 := alloc.engine.blocks, alloc.owned, Mine();
      OnlyEntry(old(freeMap), pageMap, content, f);
      FullReplaced(pageMap, old(freeMap), f, available);
      Commit(f, page, i, data, available, old(freeMap));
      assert old(freeMap) - {f} + {} == old(freeMap) - {f};
      StepTrans(old(alloc.engine.blocks), old(alloc.owned), old(Mine()), b1, o1, m1, alloc.engine.blocks, alloc.owned, Mine());
      return Success(Ref(false, c, i));
    }

    /** Enters the space that is left on a page into the free map, or takes the new object off the page again. */
    method OfferSpace(c: nat, available: nat, page: PageHandle, i: nat) returns (ok: bool)
      requires Sound() && Indexed() && FreeListed() && Noded(0) && !damaged && short.NoShortage? && c in pageMap && !pageMap[c].large && c in content
      requires page.Valid() && |page.block| == alloc.engine.blockSize && available == EffectiveFree(page.page) < EffectiveFree(content[c].page)
      requires i !in content[c].objects && i in page.Contents() && page.Contents() - {i} == content[c].objects && i < |page.page.slots|
      requires SameShape(Freed(page.page, i).slots, content[c].page.slots)
      modifies page, `freeMap, `freeTree, `nodes, `content, `damaged, `short, alloc, alloc.engine
      ensures Sound() && FreeListed() && Noded(0) && alloc.canGrow == old(alloc.canGrow)
      ensures ok ==> !damaged && content == old(content) && unchanged(page)
      ensures ok ==> freeMap == old(freeMap) + if available > 0 then {FreeEntry(available, c)} else {}
      ensures !ok ==> !alloc.canGrow && (!damaged ==> Indexed() && freeMap == old(freeMap))
      ensures (damaged <==> short == SpaceNodes(1) && T.RootFull(FreeLimits(alloc.engine.blockSize), old(freeTree))) && (short.NoShortage? <==> ok)
      ensures !ok ==> short.SpaceNodes?
      ensures Step(old(alloc.engine.blocks), old(alloc.owned), old(Mine()), alloc.engine.blocks, alloc.owned, Mine())
    {
      hide A.Allocator.Valid, Structure, Range, Count, Step, FreeOk, Flattened, NoEmptyPages, PageHandle.Valid, PageHandle.Contents,
           EffectiveFree, Freed, SameShape, T.RootFull, Heap.Owning, Heap.Held, Heap.FreeListed, Heap.Noded, Heap.Sound, Heap.Mine;
      UnpackSound();
      ok := true;
      StepNone();
      if available > 0 {
        OneEntry(freeMap, pageMap, content, FreeEntry(available, c));
        ok := InsertFree(FreeEntry(available, c));
        ghost var b1, o1, m1 := alloc.engine.blocks, alloc.owned, Mine();
        if !ok {
          PutBack(c, page, i, content[c], old(freeMap));
          StepTrans(old(alloc.engine.blocks), old(alloc.owned), old(Mine()), b1, o1, m1, alloc.engine.blocks, alloc.owned, Mine());
        }
        PackSound();
      }
    }

    /** Takes a new object off its page again and writes the page back. */
    method PutBack(c: nat, page: PageHandle, i: nat, ghost x0: Content, ghost free: set<FreeEntry>)
      requires Owning() && Held() && c in pageMap && !pageMap[c].large && page.Valid() && |page.block| == alloc.engine.blockSize
      requires c in content && content[c] == x0
      requires i !in x0.objects && i in page.Contents() && page.Contents() - {i} == x0.objects && i < |page.page.slots|
      requires SameShape(Freed(page.page, i).slots, x0.page.slots) && FreeOk(free, pageMap, content)
      requires Flattened(objects, pageMap, content) && NoEmptyPages(pageMap, content)
      modifies page, this`content, alloc.engine
      ensures Owning() && Held() && FreeOk(free, pageMap, content) && Flattened(objects, pageMap, content) && NoEmptyPages(pageMap, content)
      ensures Step(old(alloc.engine.blocks), alloc.owned, Mine(), alloc.engine.blocks, alloc.owned, Mine())
    {
      hide A.Allocator.Valid, Structure, Range, Count, Step, FreeOk, Flattened, NoEmptyPages, EffectiveFree, Heap.Owning, Shows, Ok, Objects, Freed, SameShape;
      var u := PageFree(page, i);
      PageOf(alloc.engine.blocks, alloc.engine.blockSize, pageMap, content, home, c);
      BlockSizeIs(c);
      ghost var x := Content(page.page, page.Contents());
      EffectiveFreeOfShape(x.page, x0.page, alloc.engine.blockSize);
      StorePage(c, page);
      FreeSame(free, pageMap, old(content), c, x);
      FlattenedSame(objects, pageMap, old(content), c, x);
      ShapeSize(x.page.slots, x0.page.slots);
      NoEmptyAt(pageMap, old(content), c);
      NoEmptySet(pageMap, old(content), c, x);
    }

    /** Makes blocks that were taken from the allocator an allocation of the heap. */
    method Register(c: nat, e: Entry, ghost x: Content)
      requires Owning() && Held() && e.count > 0 && Range(c, c + e.count) <= loose
      requires EntryOk(c, e, alloc.engine.blocks, alloc.engine.blockSize, x)
      modifies `pageMap, `content, `home, `loose
      ensures Owning() && Held() && Mine() == old(Mine())
      ensures c !in old(pageMap) && pageMap == old(pageMap)[c := e] && content == old(content)[c := x]
      ensures home == Settle(old(home), c, e.count) && loose == old(loose) - Range(c, c + e.count)
    {
      hide A.Allocator.Valid, EntryOk, Structure, Range, Count;
      StructureAdd(alloc.engine.blocks, alloc.engine.blockSize, pageMap, content, home, c, e, x);
      pageMap, content := pageMap[c := e], content[c := x];
      home := Settle(home, c, e.count);
      loose := loose - Range(c, c + e.count);
      assert home.Keys + loose == old(home.Keys + loose);
      assert Own() == old(Own());
    }

    /** Drops an allocation; its blocks are not given back yet. */
    method Unregister(c: nat)
      requires Owning() && Held() && c in pageMap
      modifies `pageMap, `content, `home, `loose
      ensures Owning() && Held() && Mine() == old(Mine())
      ensures pageMap == old(pageMap) - {c} && content == old(content) - {c}
      ensures loose == old(loose) + Range(c, c + old(pageMap)[c].count) && Range(c, c + old(pageMap)[c].count) !! old(loose)
    {
      hide A.Allocator.Valid, EntryOk, Range, Count, Homes;
      HomeOf(pageMap, home, c);
      StructureRemove(alloc.engine.blocks, alloc.engine.blockSize, pageMap, content, home, c);
      ghost var own := Range(c, c + pageMap[c].count);
      pageMap := pageMap - {c};
      content, home, loose := content - {c}, home - own, loose + own;
      assert home.Keys + loose == old(home.Keys + loose);
      assert Own() == old(Own());
    }

    /** Turns a block that was taken from the allocator into an empty page. */
    method InitBlock(c: nat) returns (page: PageHandle)
      requires Owning() && Held() && c in loose && c < |alloc.engine.blocks| && HEADER_SIZE + SLOT_SIZE <= alloc.engine.blockSize < U32_END
      modifies alloc.engine
      ensures Owning() && Held() && fresh(page)
      ensures Step(old(alloc.engine.blocks), alloc.owned, Mine(), alloc.engine.blocks, alloc.owned, Mine())
      ensures EntryOk(c, Entry(false, 1), alloc.engine.blocks, alloc.engine.blockSize, Content(Page([], alloc.engine.blockSize, 0), map[]))
    {
      hide Structure, Range, Count, A.Kept, A.OnlyNew, Step, F.Canonical, Uniform, PageHolds, EntryOk, Shows, Ok, Placed, Objects, Flat;
      PoolInside();
      ghost var b0 := alloc.engine.blocks;
      page := InitPage(alloc.engine.blockSize);
      alloc.engine.Overwrite(c, page.block);
      assert page.block + Zeros(0) == page.block;
      WrittenBlock(b0, c, page.block);
      OneBlock(c);
      StructureKept(b0, alloc.engine.blocks, alloc.engine.blockSize, pageMap, content, home, Range(c, c + 1));
      PageIsHeld(page);
      PageEntry(c, page.block, alloc.engine.blocks, alloc.engine.blockSize, Content(page.page, page.Contents()));
      StepWrite(b0, alloc.engine.blocks, alloc.owned, Mine(), Range(c, c + 1));
    }

    /** Enters an allocation into the tree of the index of pages; the index itself follows. */
    method InsertPage(c: nat) returns (o: T.Outcome)
      requires Owning() && Held() && PagesListed({}) && Noded(0) && c !in pageMap && !damaged
      modifies this`pageTree, this`nodes, this`damaged, this`short, alloc, alloc.engine
      ensures Owning() && Held() && Noded(0) && alloc.canGrow == old(alloc.canGrow) && (o.done || !alloc.canGrow)
      ensures Step(old(alloc.engine.blocks), old(alloc.owned), old(Mine()), alloc.engine.blocks, alloc.owned, Mine())
      ensures damaged == o.torn && (o.done ==> !o.torn)
      ensures Count(nodes) >= old(Count(nodes)) && short == if o.done then NoShortage else PageNodes(Count(nodes) - old(Count(nodes)))
      ensures o.torn <==> short == PageNodes(1) && T.RootFull(PageLimits(alloc.engine.blockSize), old(pageTree))
      ensures o.done ==> PagesListed({c})
      ensures !o.done && !o.torn ==> PagesListed({})
      ensures o.torn ==> IsTorn(PageLimits(alloc.engine.blockSize), old(pageTree), pageMap.Keys, c, pageTree)
    {
      hide A.Allocator.Valid, Structure, Range, Count, Step, Heap.Owning, Heap.Held, Mirrors, IsTorn, T.Valid, T.TryInsert, T.Size, BlockKeys, T.RootFull, Heap.Mine;
      var l := PageLimits(alloc.engine.blockSize);
      BlockKeysWith(pageMap.Keys, c);
      assert pageMap.Keys + {} == pageMap.Keys;
      o := IndexInsert(l, pageTree, BlockKey(c), BlockKeys(pageMap.Keys));
      ghost var n := Count(nodes) - old(Count(nodes));
      PageInserted(l, pageTree, pageMap.Keys, c, n);
      pageTree, damaged, short := o.root, o.torn, if o.done then NoShortage else PageNodes(n);
    }

    /** Removes an allocation from the tree of the index of pages that the index does not have any more. */
    method ErasePage(c: nat)
      requires Owning() && Held() && PagesListed({c}) && Noded(0) && c !in pageMap
      modifies this`pageTree, this`nodes, alloc, alloc.engine
      ensures Owning() && Held() && PagesListed({}) && Noded(0) && alloc.canGrow == old(alloc.canGrow)
      ensures Step(old(alloc.engine.blocks), old(alloc.owned), old(Mine()), alloc.engine.blocks, alloc.owned, Mine())
    {
      hide A.Allocator.Valid, Structure, Range, Count, Step, Heap.Owning, Heap.Held, T.Valid, T.Holds, T.Size, BlockKeys, BTreeErase.Erase;
      var l := PageLimits(alloc.engine.blockSize);
      BlockKeysWithout(pageMap.Keys + {c}, c);
      assert pageMap.Keys + {c} - {c} == pageMap.Keys + {};
      MirrorErase(l, pageTree, BlockKeys(pageMap.Keys + {c}), BlockKey(c));
      var tree := BTreeErase.Erase(l, pageTree, BlockKey(c));
      DropNodes(T.Size(pageTree) - T.Size(tree));
      pageTree := tree;
    }

    /**
    The state of the index of pages after its root was torn: entries at its upper end are gone, with the
    objects they led to, and it may have the new entry, whose blocks were given back.
    */
    method Tear(c: nat, e: Entry, ghost tree: T.Root)
      requires Owning() && Held() && loose == {} && c !in pageMap && c !in Own() && damaged
      requires Flattened(objects, pageMap, content) && NoEmptyPages(pageMap, content) && alloc.engine.blockSize >= 4
      requires IsTorn(PageLimits(alloc.engine.blockSize), tree, pageMap.Keys, c, pageTree)
      modifies `pageMap, `content, `home, `loose, `objects, `stray
      ensures Wreck() && LosesOnly(old(pageMap), old(objects), pageMap, objects, stray) && Mine() == old(Mine())
    {
      hide A.Allocator.Valid, Structure, Range, Count, Flattened, NoEmptyPages, T.Valid, IsTorn, BlockKeys, Mirrors, KeptBlocks,
           Within, HomeWithin, Surviving, LosesOnly, Heap.Wreck, Heap.PagesListed, Heap.Owning, Heap.Own;
      OwnedParts();
      var l := PageLimits(alloc.engine.blockSize);
      TornBlocks(l, tree, pageMap.Keys, c, pageTree);
      var kept := KeptBlocks(l, pageTree, pageMap.Keys + {c});
      TornState(alloc.engine.blocks, alloc.engine.blockSize, pageMap, content, home, objects, c, e, kept);
      stray := kept - pageMap.Keys;
      pageMap := Within(pageMap[c := e], kept);
      content, objects := Within(content, kept), Surviving(objects, kept);
      home := HomeWithin(home, kept);
      loose := old(home).Keys - home.Keys;
      assert pageMap.Keys + {} == kept;
      OwnedAgain(old(home).Keys);
      ListedIs(kept);
      PackWreck();
    }

    lemma OwnedParts()
      requires Owning() && loose == {}
      ensures alloc.Valid() && Own() == home.Keys + nodes <= alloc.Live() && home.Keys !! nodes && blocksCount == Count(home.Keys)
    {
      hide Count, A.Allocator.Valid;
      assert home.Keys + loose == home.Keys;
    }

    lemma OwnedAgain(all: set<nat>)
      requires alloc.Valid() && home.Keys <= all && loose == all - home.Keys && all + nodes <= alloc.Live() && all !! nodes && blocksCount == Count(all)
      ensures Owning() && Own() == all + nodes
    {
      hide Count, A.Allocator.Valid;
      assert home.Keys + loose == all;
    }

    lemma ListedIs(s: set<nat>)
      requires alloc.engine.blockSize >= 4 && Mirrors(PageLimits(alloc.engine.blockSize), pageTree, BlockKeys(s)) && pageMap.Keys + {} == s
      ensures PagesListed({})
    {}

    /** Takes blocks, and enters them into the tree of the index of pages; both or neither, unless the tree is torn. */
    method TakeIndexed(n: nat, e: Entry) returns (r: Result<nat, HeapError>)
      requires Intact() && short.NoShortage? && n > 0
      modifies `pageMap, `pageTree, `content, `home, `loose, `nodes, `blocksCount, `objects, `damaged, `short, `stray, alloc, alloc.engine
      ensures alloc.canGrow == old(alloc.canGrow)
      ensures Step(old(alloc.engine.blocks), old(alloc.owned), old(Mine()), alloc.engine.blocks, alloc.owned, Mine())
      ensures !damaged ==> Owning() && Held() && pageMap == old(pageMap) && content == old(content) && objects == old(objects) && stray == {} && Noded(0)
      ensures r.Success? ==> !damaged && PagesListed({r.value}) && r.value !in pageMap
      ensures r.Success? ==> loose == Range(r.value, r.value + n) && r.value + n <= |alloc.engine.blocks|
      ensures r.Failure? ==> r.error == BadAlloc && !alloc.canGrow
      ensures r.Failure? && !damaged ==> Intact()
      ensures damaged ==> Wreck() && LosesOnly(old(pageMap), old(objects), pageMap, objects, stray)
      ensures (damaged <==> short == PageNodes(1) && T.RootFull(PageLimits(alloc.engine.blockSize), old(pageTree))) && !short.SpaceNodes? && (r.Success? ==> short.NoShortage?)
    {
      hide A.Allocator.Valid, Structure, Range, Count, Step, FreeOk, Flattened, NoEmptyPages, LosesOnly, T.RootFull, T.Size, IsTorn,
           Heap.Owning, Heap.Held, Heap.PagesListed, Heap.FreeListed, Heap.Noded, Heap.Sound, Heap.Intact, Heap.Wreck, Heap.Mine;
      Unpack();
      r := AllocateBlocks(n);
      if r.Failure? {
        PackSound();
        Pack();
        return;
      }
      var c := r.value;
      OneOf(c, n);
      LooseApart(c);
      ghost var b1, o1, m1 := alloc.engine.blocks, alloc.owned, Mine();
      var o := InsertPage(c);
      StepTrans(old(alloc.engine.blocks), old(alloc.owned), old(Mine()), b1, o1, m1, alloc.engine.blocks, alloc.owned, Mine());
      KeptFileSize(b1, o1, m1, alloc.engine.blocks, alloc.owned, Mine());
      b1, o1, m1 := alloc.engine.blocks, alloc.owned, Mine();
      if !o.done {
        LooseApart(c);
        FreeBlocks(c, n);
        StepTrans(old(alloc.engine.blocks), old(alloc.owned), old(Mine()), b1, o1, m1, alloc.engine.blocks, alloc.owned, Mine());
        if o.torn {
          TornRoot(PageLimits(alloc.engine.blockSize), old(pageTree), pageMap.Keys, c, pageTree);
          assert c !in Own();
          Tear(c, e, old(pageTree));
        } else {
          PackSound();
          Pack();
        }
        return Failure(BadAlloc);
      }
    }

    lemma OneOf(c: nat, n: nat)
      requires n > 0
      ensures c in Range(c, c + n)
    {}

    lemma LooseApart(c: nat)
      requires Owning() && Held() && c in loose
      ensures c !in pageMap && c !in home && c !in nodes
    {
      hide A.Allocator.Valid, EntryOk, Housed;
      assert c in pageMap ==> HomeIs(home, c, pageMap[c].count);
    }

    /** Takes a block, makes it an empty page and enters it into the index of pages. */
    method NewPage() returns (r: Result<nat, HeapError>)
      requires Intact() && short.NoShortage?
      modifies `pageMap, `pageTree, `content, `home, `loose, `nodes, `blocksCount, `objects, `damaged, `short, `stray, alloc, alloc.engine
      ensures alloc.canGrow == old(alloc.canGrow)
      ensures Step(old(alloc.engine.blocks), old(alloc.owned), old(Mine()), alloc.engine.blocks, alloc.owned, Mine())
      ensures r.Failure? && !damaged ==> Intact() && pageMap == old(pageMap) && objects == old(objects)
      ensures r.Failure? ==> if r.error == BadArgument then alloc.engine.blockSize < MIN_PAGE_SIZE else r.error == BadAlloc && !alloc.canGrow
      ensures r.Success? ==>
                && Owning() && Held() && loose == {} && PagesListed({}) && Noded(0) && !damaged && stray == {}
                && r.value !in old(pageMap) && pageMap == old(pageMap)[r.value := Entry(false, 1)]
                && content == old(content)[r.value := Content(Page([], alloc.engine.blockSize, 0), map[])]
                && alloc.engine.blockSize >= MIN_PAGE_SIZE && objects == old(objects)
      ensures damaged ==> r == Failure(BadAlloc) && Wreck() && LosesOnly(old(pageMap), old(objects), pageMap, objects, stray)
      ensures (damaged <==> short == PageNodes(1) && T.RootFull(PageLimits(alloc.engine.blockSize), old(pageTree))) && !short.SpaceNodes? && (r.Success? ==> short.NoShortage?)
    {
      hide A.Allocator.Valid, Structure, Range, Count, Step, FreeOk, Flattened, NoEmptyPages, LosesOnly, EntryOk, Mirrors, BlockKeys, T.RootFull,
           Heap.Owning, Heap.Held, Heap.Mine, Heap.Noded, Heap.Wreck, Heap.Intact, Heap.Sound;
      Unpack();
      if alloc.engine.blockSize < MIN_PAGE_SIZE {
        r := TryBlock();
        return;
      }
      r := TakeIndexed(1, Entry(false, 1));
      if r.Failure? {
        return;
      }
      var c := r.value;
      OneBlock(c);
      ghost var b1, o1, m1 := alloc.engine.blocks, alloc.owned, Mine();
      var page := InitBlock(c);
      StepTrans(old(alloc.engine.blocks), old(alloc.owned), old(Mine()), b1, o1, m1, alloc.engine.blocks, alloc.owned, Mine());
      Register(c, Entry(false, 1), Content(Page([], alloc.engine.blockSize, 0), map[]));
      assert pageMap.Keys + {} == old(pageMap).Keys + {c};
    }

    /** A block that is too small for a page is given back. */
    method TryBlock() returns (r: Result<nat, HeapError>)
      requires Intact()
      modifies `loose, `blocksCount, alloc, alloc.engine
      ensures Intact() && r.Failure? && (r.error == BadAlloc || r.error == BadArgument) && alloc.canGrow == old(alloc.canGrow)
      ensures r.error == BadAlloc ==> !alloc.canGrow
      ensures Step(old(alloc.engine.blocks), old(alloc.owned), old(Mine()), alloc.engine.blocks, alloc.owned, Mine())
    {
      hide A.Allocator.Valid, Structure, Range, Count, Step, FreeOk, Flattened, NoEmptyPages, Heap.Owning, Heap.Held, Mirrors, Heap.Noded;
      r := AllocateBlocks(1);
      if r.Success? {
        ghost var b1, o1, m1 := alloc.engine.blocks, alloc.owned, Mine();
        FreeBlocks(r.value, 1);
        StepTrans(old(alloc.engine.blocks), old(alloc.owned), old(Mine()), b1, o1, m1, alloc.engine.blocks, alloc.owned, Mine());
        return Failure(BadArgument);
      }
    }

    /** Puts a new object on a new page. */
    method AllocateOnNewPage(data: seq<byte>) returns (r: Result<Ref, HeapError>)
      requires Intact() && short.NoShortage? && 0 < |data| <= MaxSmall(alloc.engine.blockSize)
      modifies `pageMap, `pageTree, `freeMap, `freeTree, `content, `home, `loose, `nodes, `blocksCount, `objects, `damaged, `short, `stray, alloc, alloc.engine
      ensures (damaged || Intact()) && alloc.canGrow == old(alloc.canGrow)
      ensures r.Success? ==> !damaged && r.value !in old(objects) && objects == old(objects)[r.value := data]
      ensures r.Success? ==> !r.value.large && Filled(old(FullPages(pageMap, freeMap)), FullPages(pageMap, freeMap), r.value.block)
      ensures r.Success? ==> LeastSlot(old(objects), r.value)
      ensures r.Failure? && !damaged ==> objects == old(objects) && freeMap == old(freeMap) && pageMap == old(pageMap)
      ensures r.Failure? ==> if r.error == BadArgument then alloc.engine.blockSize < MIN_PAGE_SIZE else r.error == BadAlloc && !alloc.canGrow
      ensures damaged ==> r == Failure(BadAlloc) && Wreck() && LosesOnly(old(pageMap), old(objects), pageMap, objects, stray)
      ensures damaged <==> Tears(short, alloc.engine.blockSize, old(pageTree), old(freeTree))
      ensures (r.Success? ==> short.NoShortage?) && (short.SpaceNodes? ==> pageMap == old(pageMap) && objects == old(objects))
      ensures Step(old(alloc.engine.blocks), old(alloc.owned), old(Mine()), alloc.engine.blocks, alloc.owned, Mine())
    {
      hide A.Allocator.Valid, Structure, Range, Count, Step, FreeOk, Flattened, NoEmptyPages, PageHandle.Valid, PageHandle.Contents,
           EffectiveFree, Freed, SameShape, Heap.Owning, Heap.Held, EntryFor, Mirrors, Heap.Noded, Heap.Wreck, T.RootFull;
      SameKeys();
      var p := NewPage();
      if p.Failure? {
        return Failure(p.error);
      }
      ghost var b1, o1, m1 := alloc.engine.blocks, alloc.owned, Mine();
      r := FirstObject(p.value, data, old(pageMap), old(content));
      StepTrans(old(alloc.engine.blocks), old(alloc.owned), old(Mine()), b1, o1, m1, alloc.engine.blocks, alloc.owned, Mine());
      if damaged {
        SoundIsWreck();
      }
    }

    /** Puts the first object on an empty page, or gives the page back. */
    method FirstObject(c: nat, data: seq<byte>, ghost pageMap0: map<nat, Entry>, ghost content0: map<nat, Content>) returns (r: Result<Ref, HeapError>)
      requires Owning() && Held() && loose == {} && MIN_PAGE_SIZE <= alloc.engine.blockSize < U32_END && 0 < |data| <= MaxSmall(alloc.engine.blockSize)
      requires FreeOk(freeMap, pageMap0, content0) && Flattened(objects, pageMap0, content0) && NoEmptyPages(pageMap0, content0)
      requires c !in pageMap0 && c !in content0 && pageMap == pageMap0[c := Entry(false, 1)]
      requires content == content0[c := Content(Page([], alloc.engine.blockSize, 0), map[])] && Listed() && !damaged && short.NoShortage?
      modifies `pageMap, `pageTree, `freeMap, `freeTree, `content, `home, `loose, `nodes, `blocksCount, `objects, `damaged, `short, alloc, alloc.engine
      ensures Sound() && Listed() && (!damaged ==> Indexed()) && alloc.canGrow == old(alloc.canGrow)
      ensures r.Success? ==> !damaged && r.value !in old(objects) && objects == old(objects)[r.value := data]
      ensures r.Success? ==> !r.value.large && Filled(FullPages(pageMap0, old(freeMap)), FullPages(pageMap, freeMap), r.value.block)
      ensures r.Success? ==> r.value.slot == 0
      ensures r.Failure? ==> objects == old(objects) && pageMap == pageMap0 && r.error == BadAlloc && !alloc.canGrow
      ensures r.Failure? && !damaged ==> freeMap == old(freeMap)
      ensures (damaged <==> short == SpaceNodes(1) && T.RootFull(FreeLimits(alloc.engine.blockSize), old(freeTree))) && (short.NoShortage? <==> r.Success?)
      ensures r.Failure? ==> short.SpaceNodes?
      ensures Step(old(alloc.engine.blocks), old(alloc.owned), old(Mine()), alloc.engine.blocks, alloc.owned, Mine())
    {
      hide A.Allocator.Valid, Structure, Range, Count, Step, FreeOk, Flattened, NoEmptyPages, PageHandle.Valid, PageHandle.Contents,
           EffectiveFree, Freed, SameShape, EntryFor, T.RootFull, FullPages, Filled,
           Heap.Owning, Heap.Held, Heap.Mine, Heap.Noded, Heap.PagesListed, Heap.FreeListed, Heap.Sound;
      FreshPage(alloc.engine.blockSize);
      var page, i := PlaceObject(c, data);
      var available := page.EffectiveFreeBytes();
      NewPageFull(freeMap, pageMap0, content0, c, available);
      FirstSlot(content[c].objects, i);
      var ok := EnterSpace(c, available, pageMap0, content0);
      if !ok {
        return Failure(BadAlloc);
      }
      ghost var b1, o1, m1 := alloc.engine.blocks, alloc.owned, Mine();
      CommitNew(c, page, i, data, available, pageMap0, content0, old(freeMap));
      assert old(freeMap) + {} == old(freeMap);
      PackSound();
      StepTrans(old(alloc.engine.blocks), old(alloc.owned), old(Mine()), b1, o1, m1, alloc.engine.blocks, alloc.owned, Mine());
      return Success(Ref(false, c, i));
    }

    /** Enters the space of a new page into the free map, or gives the page back. */
    method EnterSpace(c: nat, available: nat, ghost pageMap0: map<nat, Entry>, ghost content0: map<nat, Content>) returns (ok: bool)
      requires Owning() && Held() && loose == {} && MIN_PAGE_SIZE <= alloc.engine.blockSize < U32_END && Listed() && !damaged && short.NoShortage?
      requires FreeOk(freeMap, pageMap0, content0) && Flattened(objects, pageMap0, content0) && NoEmptyPages(pageMap0, content0)
      requires c !in pageMap0 && c !in content0 && pageMap == pageMap0[c := Entry(false, 1)]
      requires content == content0[c := Content(Page([], alloc.engine.blockSize, 0), map[])]
      modifies `pageMap, `pageTree, `freeMap, `freeTree, `content, `home, `loose, `nodes, `blocksCount, `damaged, `short, alloc, alloc.engine
      ensures Listed() && alloc.canGrow == old(alloc.canGrow)
      ensures ok ==> Owning() && Held() && loose == {} && !damaged && pageMap == old(pageMap) && content == old(content)
      ensures ok ==> freeMap == old(freeMap) + if available > 0 then {FreeEntry(available, c)} else {}
      ensures !ok ==> Sound() && pageMap == pageMap0 && content == content0 && !alloc.canGrow && (!damaged ==> freeMap == old(freeMap))
      ensures (damaged <==> short == SpaceNodes(1) && T.RootFull(FreeLimits(alloc.engine.blockSize), old(freeTree))) && (short.NoShortage? <==> ok)
      ensures !ok ==> short.SpaceNodes?
      ensures Step(old(alloc.engine.blocks), old(alloc.owned), old(Mine()), alloc.engine.blocks, alloc.owned, Mine())
    {
      hide A.Allocator.Valid, Structure, Range, Count, Step, FreeOk, Flattened, NoEmptyPages, T.RootFull,
           Heap.Owning, Heap.Held, Heap.Mine, Heap.Noded, Heap.PagesListed, Heap.FreeListed, Heap.Sound;
      ok := true;
      StepNone();
      if available > 0 {
        NoEntry(freeMap, pageMap0, content0, FreeEntry(available, c));
        ok := InsertFree(FreeEntry(available, c));
        ghost var b1, o1, m1 := alloc.engine.blocks, alloc.owned, Mine();
        if !ok {
          Withdraw(c, pageMap0, content0);
          StepTrans(old(alloc.engine.blocks), old(alloc.owned), old(Mine()), b1, o1, m1, alloc.engine.blocks, alloc.owned, Mine());
        }
      }
    }

    /** Gives an empty page back. */
    method Withdraw(c: nat, ghost pageMap0: map<nat, Entry>, ghost content0: map<nat, Content>)
      requires Owning() && Held() && loose == {} && MIN_PAGE_SIZE <= alloc.engine.blockSize < U32_END && PagesListed({}) && Noded(0)
      requires Flattened(objects, pageMap0, content0) && NoEmptyPages(pageMap0, content0) && c !in pageMap0 && c !in content0
      requires pageMap == pageMap0[c := Entry(false, 1)] && content == content0[c := Content(Page([], alloc.engine.blockSize, 0), map[])]
      modifies `pageMap, `pageTree, `content, `home, `loose, `nodes, `blocksCount, alloc, alloc.engine
      ensures Sound() && PagesListed({}) && Noded(0) && pageMap == pageMap0 && content == content0 && alloc.canGrow == old(alloc.canGrow)
      ensures Step(old(alloc.engine.blocks), old(alloc.owned), old(Mine()), alloc.engine.blocks, alloc.owned, Mine())
    {
      hide A.Allocator.Valid, Structure, Range, Count, Step, Flattened, NoEmptyPages,
           Heap.Owning, Heap.Held, Heap.Mine, Heap.Noded, Heap.PagesListed, Heap.Sound;
      DropAllocation(c);
      assert pageMap == pageMap0 && content == content0;
      PackSound();
    }

    lemma StepNone()
      requires Owning()
      ensures Step(alloc.engine.blocks, alloc.owned, Mine(), alloc.engine.blocks, alloc.owned, Mine())
    {}

    /** Writes a new page with its first object back; its free space is in the free map. */
    method CommitNew(c: nat, page: PageHandle, i: nat, data: seq<byte>, available: nat,
                     ghost pageMap0: map<nat, Entry>, ghost content0: map<nat, Content>, ghost free: set<FreeEntry>)
      requires Owning() && Held() && page.Valid() && |page.block| == alloc.engine.blockSize && available == EffectiveFree(page.page)
      requires page.Contents() == map[i := data] && i < |page.page.slots|
      requires FreeOk(free, pageMap0, content0) && Flattened(objects, pageMap0, content0) && NoEmptyPages(pageMap0, content0)
      requires freeMap == free + if available > 0 then {FreeEntry(available, c)} else {}
      requires c !in pageMap0 && c !in content0 && pageMap == pageMap0[c := Entry(false, 1)]
      requires content == content0[c := Content(Page([], alloc.engine.blockSize, 0), map[])]
      modifies `content, `objects, alloc.engine
      ensures Owning() && Held() && Indexed() && Flattened(objects, pageMap, content) && NoEmptyPages(pageMap, content)
      ensures Ref(false, c, i) !in old(objects) && objects == old(objects)[Ref(false, c, i) := data]
      ensures Step(old(alloc.engine.blocks), old(alloc.owned), old(Mine()), alloc.engine.blocks, alloc.owned, Mine())
    {
      hide A.Allocator.Valid, Structure, Range, Count, Step, FreeOk, Flattened, NoEmptyPages, PageHandle.Valid, PageHandle.Contents,
           EffectiveFree, Freed, SameShape, Heap.Owning, Heap.Held, EntryFor;
      StorePage(c, page);
      ghost var x0, x := Content(Page([], alloc.engine.blockSize, 0), map[]), Content(page.page, page.Contents());
      assert content == content0[c := x];
      EntryIs(page.page, c, available);
      FreeAdd(free, pageMap0, content0, c, Entry(false, 1), x);
      FlattenedAdd(objects, pageMap0, content0, c, Entry(false, 1), x0);
      FlattenedNew(objects, pageMap, content0[c := x0], c, i);
      FlattenedSet(objects, pageMap, content0[c := x0], c, x, i, data);
      NoEmptyAdd(pageMap0, content0, c, Entry(false, 1), x);
      objects := objects[Ref(false, c, i) := data];
    }

    /** Places a small object on the page with the least space that is enough, or else on a new page. */
    method AllocateSmall(data: seq<byte>) returns (r: Result<Ref, HeapError>)
      requires Intact() && short.NoShortage? && 0 < |data| <= MaxSmall(alloc.engine.blockSize)
      modifies `pageMap, `pageTree, `freeMap, `freeTree, `content, `home, `loose, `nodes, `blocksCount, `objects, `damaged, `short, `stray, alloc, alloc.engine
      ensures (damaged || Intact()) && alloc.canGrow == old(alloc.canGrow)
      ensures r.Success? ==> !damaged && r.value !in old(objects) && objects == old(objects)[r.value := data]
      ensures r.Success? ==> !r.value.large && Filled(old(FullPages(pageMap, freeMap)), FullPages(pageMap, freeMap), r.value.block)
      ensures r.Success? ==> LeastSlot(old(objects), r.value)
      ensures r.Success? ==> forall f :: IsLowerBound(old(freeMap), |data|, f) ==> r.value.block == f.block
      ensures r.Failure? && !damaged ==> objects == old(objects) && freeMap == old(freeMap) && pageMap == old(pageMap)
      ensures r.Failure? ==> if r.error == BadArgument then alloc.engine.blockSize < MIN_PAGE_SIZE else r.error == BadAlloc && !alloc.canGrow
      ensures damaged ==> r == Failure(BadAlloc) && Wreck() && LosesOnly(old(pageMap), old(objects), pageMap, objects, stray)
      ensures damaged <==> Tears(short, alloc.engine.blockSize, old(pageTree), old(freeTree))
      ensures (r.Success? ==> short.NoShortage?) && (short.SpaceNodes? ==> pageMap == old(pageMap) && objects == old(objects))
      ensures Step(old(alloc.engine.blocks), old(alloc.owned), old(Mine()), alloc.engine.blocks, alloc.owned, Mine())
    {
      hide Heap.Sound, Heap.Indexed, Step, Range, Heap.Mine, Mirrors, Heap.Noded, Heap.Wreck, T.RootFull, FullPages, Filled, LeastSlot;
      var f := LowerBound(|data|);
      if f.Some? {
        r := AllocateOnPage(f.value, data);
        if damaged {
          SoundIsWreck();
        }
      } else {
        r := AllocateOnNewPage(data);
      }
    }

    // ---- Large objects.

    /** Stores a large object in blocks that were taken for it. */
    method WriteLarge(c: nat, n: nat, bytes: Option<seq<byte>>, size: nat)
      requires Owning() && Held() && n > 0 && Range(c, c + n) <= loose && c + n <= |alloc.engine.blocks|
      requires 0 < size && LARGE_HEADER + size < U32_END && (bytes.Some? ==> |bytes.value| == size)
      requires alloc.engine.blockSize < U32_END && n == LargeBlocks(size, alloc.engine.blockSize) && LARGE_HEADER + size <= n * alloc.engine.blockSize
      modifies alloc.engine
      ensures Owning() && Held()
      ensures Step(old(alloc.engine.blocks), alloc.owned, Mine(), alloc.engine.blocks, alloc.owned, Mine())
      ensures EntryOk(c, Entry(true, n), alloc.engine.blocks, alloc.engine.blockSize, Content(Page([], 0, 0), map[0 := Initial(bytes, size)]))
    {
      hide Structure, Range, Count, A.Kept, A.OnlyNew, Step, F.Canonical, Flat, EntryOk, Encode, LargeHolds, LargeBlocks;
      var bs := alloc.engine.blockSize;
      var image := LargeImage(Initial(bytes, size));
      ghost var b0 := alloc.engine.blocks;
      PoolInside();
      RunInFile(|b0|, bs, c, n);
      alloc.engine.Write(c * bs, image[..LARGE_HEADER]);
      ghost var b1 := alloc.engine.blocks;
      SpliceInRun(b0, b1, bs, c, n, 0, image[..LARGE_HEADER]);
      if bytes.Some? {
        alloc.engine.Write(c * bs + LARGE_HEADER, bytes.value);
      } else {
        alloc.engine.Zero(c * bs + LARGE_HEADER, size);
      }
      ghost var b2 := alloc.engine.blocks;
      SpliceInRun(b1, b2, bs, c, n, LARGE_HEADER, Initial(bytes, size));
      A.KeptTrans(b0, b1, b2, Range(c, c + n), Range(c, c + n), Range(c, c + n));
      LargeWritten(Flat(b0[c..c + n], bs), Flat(b1[c..c + n], bs), b2[c..c + n], bs, Initial(bytes, size));
      LargeEntry(c, n, b2, bs, Initial(bytes, size));
      StructureKept(b0, b2, bs, pageMap, content, home, Range(c, c + n));
      StepWrite(b0, b2, alloc.owned, Mine(), Range(c, c + n));
    }

    /** Makes blocks that are in the tree of the index the allocation of a large object. */
    method FillLarge(c: nat, n: nat, bytes: Option<seq<byte>>, size: nat)
      requires Owning() && Held() && n > 0 && loose == Range(c, c + n) && c + n <= |alloc.engine.blocks| && c !in pageMap && PagesListed({c})
      requires 0 < size && LARGE_HEADER + size < U32_END && (bytes.Some? ==> |bytes.value| == size)
      requires MIN_BLOCK_SIZE <= alloc.engine.blockSize < U32_END && n == LargeBlocks(size, alloc.engine.blockSize)
      requires LARGE_HEADER + size <= n * alloc.engine.blockSize
      requires FreeOk(freeMap, pageMap, content) && Flattened(objects, pageMap, content) && NoEmptyPages(pageMap, content)
      modifies `pageMap, `content, `home, `loose, `objects, alloc.engine
      ensures Sound() && FreeOk(freeMap, pageMap, content) && PagesListed({})
      ensures Ref(true, c, 0) !in old(objects) && objects == old(objects)[Ref(true, c, 0) := Initial(bytes, size)]
      ensures pageMap == old(pageMap)[c := Entry(true, n)]
      ensures Step(old(alloc.engine.blocks), old(alloc.owned), old(Mine()), alloc.engine.blocks, alloc.owned, Mine())
    {
      hide A.Allocator.Valid, Structure, Range, Count, Step, FreeOk, Flattened, NoEmptyPages, EntryOk, LargeBlocks, Settle, Initial,
           Mirrors, BlockKeys, Heap.Owning, Heap.Held, Heap.Mine, Heap.Sound;
      SameKeys();
      WriteLarge(c, n, bytes, size);
      ghost var x := Content(Page([], 0, 0), map[0 := Initial(bytes, size)]);
      Register(c, Entry(true, n), x);
      assert pageMap.Keys + {} == old(pageMap).Keys + {c};
      NewLarge(objects, freeMap, old(pageMap), old(content), c, Entry(true, n), x);
      objects := objects[Ref(true, c, 0) := Initial(bytes, size)];
      PackSound();
    }

    /** Places a large object in blocks of its own. */
    method AllocateLarge(bytes: Option<seq<byte>>, size: nat) returns (r: Result<Ref, HeapError>)
      requires Intact() && short.NoShortage? && 0 < size && LARGE_HEADER + size <= U32_END && (bytes.Some? ==> |bytes.value| == size)
      modifies `pageMap, `pageTree, `content, `home, `loose, `nodes, `blocksCount, `objects, `damaged, `short, `stray, alloc, alloc.engine
      ensures (damaged || Intact()) && alloc.canGrow == old(alloc.canGrow)
      ensures r == Failure(BadArgument) <==> LARGE_HEADER + size + alloc.engine.blockSize - 1 >= U32_END
      ensures r.Success? ==> !damaged && r.value !in old(objects) && objects == old(objects)[r.value := Initial(bytes, size)]
      ensures r.Success? ==> r.value.large && FullPages(pageMap, freeMap) == old(FullPages(pageMap, freeMap))
      ensures r.Failure? && !damaged ==> objects == old(objects) && pageMap == old(pageMap) && freeMap == old(freeMap)
      ensures r.Failure? && r.error != BadArgument ==> r.error == BadAlloc && !alloc.canGrow
      ensures damaged ==> r == Failure(BadAlloc) && Wreck() && LosesOnly(old(pageMap), old(objects), pageMap, objects, stray)
      ensures (damaged <==> short == PageNodes(1) && T.RootFull(PageLimits(alloc.engine.blockSize), old(pageTree))) && !short.SpaceNodes? && (r.Success? ==> short.NoShortage?)
      ensures Step(old(alloc.engine.blocks), old(alloc.owned), old(Mine()), alloc.engine.blocks, alloc.owned, Mine())
    {
      hide A.Allocator.Valid, Structure, Range, Count, Step, FreeOk, Flattened, NoEmptyPages, EntryOk, LargeBlocks, Settle, Initial,
           LosesOnly, T.RootFull, FullPages, Heap.Owning, Heap.Held, Heap.Mine, Heap.Noded, Heap.PagesListed, Heap.FreeListed, Heap.Sound, Heap.Intact, Heap.Wreck;
      Unpack();
      var n := LargeBlocks(size, alloc.engine.blockSize);
      LargeBlocksFit(size, alloc.engine.blockSize);
      StepNone();
      if n == 0 {
        return Failure(BadArgument);
      }
      var b := TakeIndexed(n, Entry(true, n));
      if b.Failure? {
        return Failure(b.error);
      }
      ghost var b1, o1, m1 := alloc.engine.blocks, alloc.owned, Mine();
      FullOfLarge(pageMap, freeMap, b.value, n);
      FillLarge(b.value, n, bytes, size);
      StepTrans(old(alloc.engine.blocks), old(alloc.owned), old(Mine()), b1, o1, m1, alloc.engine.blocks, alloc.owned, Mine());
      Pack();
      return Success(Ref(true, b.value, 0));
    }

    // ---- The interface.

    /**
    Creates an object with the given bytes, or with zeroes, and returns a reference that no live
    object has; all other objects stay as they are. A failure leaves all objects as they are, unless it
    tears the root of an index: exactly when that root is full and there is one block for its two new nodes.
    Then the objects of the last allocations in the index may be lost.
    */
    method Allocate(bytes: Option<seq<byte>>, size: nat) returns (r: Result<Ref, HeapError>)
      requires Valid() && LARGE_HEADER + size <= U32_END && (bytes.Some? ==> |bytes.value| == size)
      modifies this, alloc, alloc.engine
      ensures (damaged || Valid()) && alloc.canGrow == old(alloc.canGrow)
      ensures r.Success? ==> !damaged && r.value !in old(objects) && objects == old(objects)[r.value := Initial(bytes, size)]
      ensures r.Success? ==>
                if r.value.large then FullPages(pageMap, freeMap) == old(FullPages(pageMap, freeMap))
                else Filled(old(FullPages(pageMap, freeMap)), FullPages(pageMap, freeMap), r.value.block) && LeastSlot(old(objects), r.value)
      ensures r.Success? ==> (r.value.large <==> 4 * size > 3 * alloc.engine.blockSize % U32_END)
      ensures r.Success? && 3 * alloc.engine.blockSize < U32_END ==> (r.value.large <==> 4 * size > 3 * alloc.engine.blockSize)
      ensures r.Success? && !r.value.large ==> forall f :: IsLowerBound(old(freeMap), size, f) ==> r.value.block == f.block
      ensures r.Failure? && !damaged ==> objects == old(objects) && FullPages(pageMap, freeMap) == old(FullPages(pageMap, freeMap))
      ensures size == 0 || TooLarge(size, alloc.engine.blockSize) ==> r == Failure(BadArgument)
      ensures r.Failure? && size > 0 && !TooLarge(size, alloc.engine.blockSize) ==>
                if r.error == BadArgument then alloc.engine.blockSize <= 128 && 4 * size <= 3 * alloc.engine.blockSize else r.error == BadAlloc && !alloc.canGrow
      ensures damaged ==> r == Failure(BadAlloc) && Wreck() && LosesOnly(old(pageMap), old(objects), pageMap, objects, stray)
      ensures damaged <==> Tears(short, alloc.engine.blockSize, old(pageTree), old(freeTree))
      ensures (r.Success? ==> short.NoShortage?) && (short.SpaceNodes? ==> pageMap == old(pageMap) && objects == old(objects))
      ensures damaged ==> objectsCount == |old(objects)| && objectsSize == Weight(old(objects))
      ensures Step(old(alloc.engine.blocks), old(alloc.owned), old(Mine()), alloc.engine.blocks, alloc.owned, Mine())
    {
      hide Heap.Intact, Heap.Sound, Step, Range, Heap.Mine, Weight, Heap.Wreck, T.RootFull, LosesOnly, FullPages, Filled, LeastSlot, IsLowerBound, MaxSmall;
      SoundNow();
      MineInside();
      SmallIf(size, alloc.engine.blockSize);
      short := NoShortage;
      StepRefl(alloc.engine.blocks, alloc.owned, Mine());
      if size == 0 {
        return Failure(BadArgument);
      }
      if size > MaxSmall(alloc.engine.blockSize) {
        r := AllocateLarge(bytes, size);
      } else {
        r := AllocateSmall(Initial(bytes, size));
      }
      if r.Failure? {
        return;
      }
      WeightWith(old(objects), r.value, Initial(bytes, size));
      objectsCount := objectsCount + 1;
      objectsSize := objectsSize + size;
    }

    lemma MineInside()
      requires Sound()
      ensures Mine() <= alloc.owned && alloc.engine.blockSize > 0
    {}

    /** Whether a reference leads to an object, as far as the index of pages can tell. */
    method CheckReference(ref: Option<Ref>) returns (r: Outcome<HeapError>)
      ensures r.Pass? <==> ref.Some? && ref.value.block in pageMap && pageMap[ref.value.block].large == ref.value.large
      ensures r.Fail? ==> r.error == BadArgument
    {
      if ref.None? || ref.value.block !in pageMap || pageMap[ref.value.block].large != ref.value.large {
        return Fail(BadArgument);
      }
      return Pass;
    }

    /** Reads the size of the large object at a block. */
    method LargeSize(c: nat) returns (n: nat)
      requires Owning() && Held() && c in pageMap && pageMap[c].large
      ensures c in content && 0 in content[c].objects && n == |content[c].objects[0]|
    {
      hide Structure, Flat, Uniform, Range, LargeBlocks, LargeHolds, Decode, Heap.Owning;
      var bs := alloc.engine.blockSize;
      EngineOk();
      LargeOf(alloc.engine.blocks, bs, pageMap, content, home, c);
      LargeWindow(alloc.engine.blocks, bs, c, pageMap[c].count, content[c].objects[0]);
      var header := alloc.engine.Read(c * bs, LARGE_HEADER);
      n := Decode(header);
    }

    lemma EngineOk()
      requires Owning()
      ensures alloc.engine.Valid()
    {}

    lemma IsLive(ref: Ref)
      requires Held() && Flattened(objects, pageMap, content)
      ensures ref in objects <==>
              ref.block in pageMap && pageMap[ref.block].large == ref.large && ref.block in content && ref.slot in content[ref.block].objects
      ensures ref in objects ==> objects[ref] == content[ref.block].objects[ref.slot]
    {}

    /** The size of a live object. */
    method Size(ref: Option<Ref>) returns (r: Result<nat, HeapError>)
      requires Sound()
      ensures r.Success? <==> ref.Some? && ref.value in objects
      ensures r.Success? ==> r.value == |objects[ref.value]|
      ensures r.Failure? ==> r.error == BadArgument || r.error == AssertionFailed
    {
      hide A.Allocator.Valid, Structure, Flattened, NoEmptyPages, PageHandle.Valid, PageHandle.Contents, Count;
      var ok := CheckReference(ref);
      if ok.Fail? {
        if ref.Some? { IsLive(ref.value); }
        return Failure(ok.error);
      }
      var c := ref.value.block;
      IsLive(ref.value);
      if ref.value.large {
        LargeOf(alloc.engine.blocks, alloc.engine.blockSize, pageMap, content, home, c);
        if ref.value.slot != 0 {
          return Failure(AssertionFailed);
        }
        var n := LargeSize(c);
        return Success(n);
      }
      var page := ReadPage(c);
      var s := FindObject(page, ref.value.slot);
      if s.Failure? {
        return Failure(if s.error == NoSuchSlot then BadArgument else AssertionFailed);
      }
      SliceSize(page.block, s.value.offset, s.value.End());
      return Success(s.value.size);
    }

    /** Copies a live object into a buffer of its size. */
    method Load(ref: Option<Ref>, size: nat) returns (r: Result<seq<byte>, HeapError>)
      requires Sound()
      ensures r.Success? <==> ref.Some? && ref.value in objects && size == |objects[ref.value]|
      ensures r.Success? ==> r.value == objects[ref.value]
    {
      hide A.Allocator.Valid, Structure, Flattened, NoEmptyPages, PageHandle.Valid, PageHandle.Contents, Count;
      var n := Size(ref);
      if n.Failure? {
        return Failure(n.error);
      }
      if n.value != size {
        return Failure(BadArgument);
      }
      var c := ref.value.block;
      IsLive(ref.value);
      if ref.value.large {
        var data := LoadLarge(c);
        return Success(data);
      }
      var page := ReadPage(c);
      var s := FindObject(page, ref.value.slot);
      return Success(page.block[s.value.offset..s.value.End()]);
    }

    method LoadLarge(c: nat) returns (data: seq<byte>)
      requires Owning() && Held() && c in pageMap && pageMap[c].large
      ensures c in content && content[c].objects == map[0 := data]
    {
      hide Structure, Flat, Uniform, Range, LargeBlocks, LargeHolds, Decode, Heap.Owning;
      var bs := alloc.engine.blockSize;
      EngineOk();
      var n := LargeSize(c);
      LargeOf(alloc.engine.blocks, bs, pageMap, content, home, c);
      LargeWindow(alloc.engine.blocks, bs, c, pageMap[c].count, content[c].objects[0]);
      data := alloc.engine.Read(c * bs + LARGE_HEADER, n);
    }

    /** Overwrites the bytes of a large object. */
    method StoreLarge(c: nat, data: seq<byte>)
      requires Owning() && Held() && c in pageMap && pageMap[c].large && c in content
      requires 0 in content[c].objects && |data| == |content[c].objects[0]|
      modifies `content, alloc.engine
      ensures Owning() && Held() && content == old(content)[c := Content(old(content)[c].page, map[0 := data])]
      ensures Step(old(alloc.engine.blocks), alloc.owned, Mine(), alloc.engine.blocks, alloc.owned, Mine())
    {
      hide Structure, Flat, F.Canonical, Range, LargeBlocks, LargeHolds, EntryOk, Step, A.Kept, Count;
      var bs := alloc.engine.blockSize;
      ghost var b0, n, x := alloc.engine.blocks, pageMap[c].count, Content(content[c].page, map[0 := data]);
      PoolInside();
      LargeOf(b0, bs, pageMap, content, home, c);
      LargeInside(b0, bs, c, n, content[c].objects[0]);
      alloc.engine.Write(c * bs + LARGE_HEADER, data);
      ghost var b1 := alloc.engine.blocks;
      SpliceInRun(b0, b1, bs, c, n, LARGE_HEADER, data);
      LargeStored(b0[c..c + n], b1[c..c + n], bs, content[c].objects[0], data);
      LargeEntryIs(c, pageMap[c], b1, bs, x);
      StructureSet(b0, b1, bs, pageMap, content, home, c, x);
      StepWrite(b0, b1, alloc.owned, Mine(), Range(c, c + n));
      content := content[c := x];
    }

    /** Overwrites the bytes of an object on its page or in its run. */
    method Overwrite(ref: Ref, data: seq<byte>)
      requires Owning() && Held() && ref.block in pageMap && pageMap[ref.block].large == ref.large && ref.block in content
      requires ref.slot in content[ref.block].objects && |data| == |content[ref.block].objects[ref.slot]|
      modifies `content, alloc.engine
      ensures Owning() && Held() && content.Keys == old(content).Keys
      ensures content == old(content)[ref.block := content[ref.block]] && content[ref.block].page == old(content)[ref.block].page
      ensures content[ref.block].objects == old(content)[ref.block].objects[ref.slot := data]
      ensures Step(old(alloc.engine.blocks), alloc.owned, Mine(), alloc.engine.blocks, alloc.owned, Mine())
    {
      hide Structure, Range, Step, PageHandle.Valid, PageHandle.Contents, Heap.Owning, LargeHolds;
      if ref.large {
        LargeOf(alloc.engine.blocks, alloc.engine.blockSize, pageMap, content, home, ref.block);
        StoreLarge(ref.block, data);
      } else {
        var page := ReadPage(ref.block);
        WriteObject(page, ref.slot, data);
        StorePage(ref.block, page);
      }
    }

    /** Overwrites a live object with as many bytes as it has. */
    method Replace(ref: Ref, data: seq<byte>)
      requires Sound() && Indexed() && ref in objects && |data| == |objects[ref]|
      modifies `content, `objects, alloc.engine
      ensures Sound() && Indexed() && objects == old(objects)[ref := data] && |objects| == |old(objects)| && Weight(objects) == Weight(old(objects))
      ensures Step(old(alloc.engine.blocks), alloc.owned, Mine(), alloc.engine.blocks, alloc.owned, Mine())
    {
      hide A.Allocator.Valid, Structure, Range, Step, FreeOk, Flattened, NoEmptyPages, EffectiveFree, Heap.Owning, Heap.Held, Heap.Mine, Weight, Heap.Sound;
      UnpackSound();
      IsLive(ref);
      Overwrite(ref, data);
      Stored(objects, freeMap, pageMap, old(content), ref, content[ref.block], data);
      objects := objects[ref := data];
      PackSound();
    }

    /** Overwrites a live object with as many bytes as it has. Nothing else changes. */
    method Store(ref: Option<Ref>, data: seq<byte>) returns (r: Outcome<HeapError>)
      requires Valid()
      modifies `content, `objects, alloc.engine
      ensures Valid()
      ensures r.Pass? <==> ref.Some? && ref.value in old(objects) && |data| == |old(objects)[ref.value]|
      ensures r.Pass? ==> objects == old(objects)[ref.value := data]
      ensures r.Fail? ==> objects == old(objects) && alloc.engine.blocks == old(alloc.engine.blocks)
      ensures Step(old(alloc.engine.blocks), alloc.owned, Mine(), alloc.engine.blocks, alloc.owned, Mine())
    {
      hide Step, Heap.Mine, Weight, Heap.Sound, Heap.Indexed, Heap.Listed;
      MineInside();
      StepRefl(alloc.engine.blocks, alloc.owned, Mine());
      var n := Size(ref);
      if n.Failure? {
        return Fail(n.error);
      }
      if n.value != |data| {
        return Fail(BadArgument);
      }
      Replace(ref.value, data);
      return Pass;
    }

    /** Drops an allocation and gives its blocks back. */
    method DropAllocation(c: nat)
      requires Owning() && Held() && loose == {} && c in pageMap && PagesListed({}) && Noded(0)
      modifies `pageMap, `pageTree, `content, `home, `loose, `nodes, `blocksCount, alloc, alloc.engine
      ensures Owning() && Held() && loose == {} && pageMap == old(pageMap) - {c} && content == old(content) - {c}
      ensures PagesListed({}) && Noded(0) && alloc.canGrow == old(alloc.canGrow)
      ensures Step(old(alloc.engine.blocks), old(alloc.owned), old(Mine()), alloc.engine.blocks, alloc.owned, Mine())
    {
      hide A.Allocator.Valid, Structure, Range, Count, Step, Heap.Owning, Heap.Held, Mirrors, Heap.Noded;
      var n := pageMap[c].count;
      HasBlocks(c);
      Unregister(c);
      assert pageMap.Keys + {c} == old(pageMap).Keys + {};
      ErasePage(c);
      ghost var b1, o1, m1 := alloc.engine.blocks, alloc.owned, Mine();
      FreeBlocks(c, n);
      StepTrans(old(alloc.engine.blocks), old(alloc.owned), old(Mine()), b1, o1, m1, alloc.engine.blocks, alloc.owned, Mine());
    }

    lemma HasBlocks(c: nat)
      requires Held() && c in pageMap
      ensures pageMap[c].count > 0
    {}

    method DropEntry(available: Option<FreeEntry>)
      requires Owning() && Held() && FreeListed() && Noded(0)
      modifies this`freeMap, this`freeTree, this`nodes, alloc, alloc.engine
      ensures Owning() && Held() && FreeListed() && Noded(0) && alloc.canGrow == old(alloc.canGrow)
      ensures freeMap == old(freeMap) - if available.Some? then {available.value} else {}
      ensures Step(old(alloc.engine.blocks), old(alloc.owned), old(Mine()), alloc.engine.blocks, alloc.owned, Mine())
    {
      hide Step, Heap.Owning, Heap.Held, Heap.Noded, Heap.FreeListed, Heap.Mine;
      StepNone();
      if available.Some? {
        EraseFree(available.value);
      }
    }

    /** Frees the only object of an allocation. */
    method FreeOnly(c: nat, i: nat, available: Option<FreeEntry>)
      requires Sound() && Indexed() && Listed() && c in pageMap && c in content && content[c].objects.Keys == {i}
      requires (if available.Some? then {available.value} else {}) == if pageMap[c].large then {} else EntryFor(content[c].page, c)
      requires available.Some? || pageMap[c].large
      modifies `pageMap, `pageTree, `freeMap, `freeTree, `content, `home, `loose, `nodes, `blocksCount, `objects, alloc, alloc.engine
      ensures Sound() && Indexed() && Listed() && alloc.canGrow == old(alloc.canGrow)
      ensures objects == old(objects) - {Ref(old(pageMap)[c].large, c, i)} && FullPages(pageMap, freeMap) == old(FullPages(pageMap, freeMap))
      ensures Step(old(alloc.engine.blocks), old(alloc.owned), old(Mine()), alloc.engine.blocks, alloc.owned, Mine())
    {
      hide A.Allocator.Valid, Structure, Range, Count, Step, FreeOk, Flattened, NoEmptyPages, EntryFor, FullPages,
           Heap.Owning, Heap.Held, Heap.Noded, Heap.PagesListed, Heap.FreeListed, Heap.Sound, Heap.Mine;
      UnpackSound();
      FullAfterDrop(freeMap, pageMap, content, c, available);
      ghost var ref := Ref(pageMap[c].large, c, i);
      LastGone(objects, freeMap, pageMap, content, c, i);
      DropAllocation(c);
      ghost var b1, o1, m1 := alloc.engine.blocks, alloc.owned, Mine();
      DropEntry(available);
      StepTrans(old(alloc.engine.blocks), old(alloc.owned), old(Mine()), b1, o1, m1, alloc.engine.blocks, alloc.owned, Mine());
      objects := objects - {ref};
      PackSound();
    }

    /** Frees one of several objects of a page. The new entry of the free map may need a tree node. */
    method FreeOne(page: PageHandle, f: FreeEntry, i: nat) returns (r: Outcome<HeapError>)
      requires Sound() && Indexed() && FreeListed() && Noded(0) && !damaged
      requires f in freeMap && f.block in content && f.block in pageMap && !pageMap[f.block].large
      requires page.Valid() && |page.block| == alloc.engine.blockSize && |page.page.slots| > 0
      requires EffectiveFree(page.page) > 0 && page.Contents() == content[f.block].objects - {i}
      modifies `freeMap, `freeTree, `content, `nodes, `objects, `damaged, `short, alloc, alloc.engine
      ensures Sound() && FreeListed() && Noded(0) && alloc.canGrow == old(alloc.canGrow) && objects == old(objects) - {Ref(false, f.block, i)}
      ensures r.Pass? ==> Indexed() && !damaged && FullPages(pageMap, freeMap) == old(FullPages(pageMap, freeMap))
      ensures r.Fail? ==> r.error == BadAlloc && !alloc.canGrow && !Indexed() && damaged
      ensures Step(old(alloc.engine.blocks), old(alloc.owned), old(Mine()), alloc.engine.blocks, alloc.owned, Mine())
    {
      hide A.Allocator.Valid, Structure, Range, Count, Step, FreeOk, Flattened, NoEmptyPages, PageHandle.Valid, PageHandle.Contents,
           EffectiveFree, EntryFor, T.RootFull, FullPages, Heap.Owning, Heap.Held, Heap.FreeListed, Heap.Noded, Heap.Sound, Heap.Mine;
      UnpackSound();
      var c := f.block;
      ghost var x := Content(page.page, page.Contents());
      OneGone(objects, freeMap, pageMap, content, f, i, x);
      EraseFree(f);
      ghost var b1, o1, m1 := alloc.engine.blocks, alloc.owned, Mine();
      StorePage(c, page);
      StepTrans(old(alloc.engine.blocks), old(alloc.owned), old(Mine()), b1, o1, m1, alloc.engine.blocks, alloc.owned, Mine());
      objects := objects - {Ref(false, c, i)};
      b1, o1, m1 := alloc.engine.blocks, alloc.owned, Mine();
      var available := page.EffectiveFreeBytes();
      EntryIs(page.page, c, available);
      OnlyEntry(old(freeMap), pageMap, old(content), f);
      FullReplaced(pageMap, old(freeMap), f, available);
      var ok := InsertFree(FreeEntry(available, c));
      StepTrans(old(alloc.engine.blocks), old(alloc.owned), old(Mine()), b1, o1, m1, alloc.engine.blocks, alloc.owned, Mine());
      PackSound();
      if !ok {
        AllAreNeeded(old(freeMap) - {f} + {FreeEntry(available, c)}, freeMap, pageMap, content);
        Slack();
        damaged := true;
        NowSlack();
        return Fail(BadAlloc);
      }
      return Pass;
    }

    lemma NowSlack()
      requires damaged && T.Size(pageTree) + T.Size(freeTree) <= Count(nodes)
      ensures Noded(0)
    {}

    lemma Slack()
      requires Noded(0)
      ensures T.Size(pageTree) + T.Size(freeTree) <= Count(nodes)
    {}

    /**
    Frees an object of a page. This fails on a page without any effective free space, because such
    a page has no entry in the free map to replace.
    */
    method FreeSmall(c: nat, i: nat) returns (r: Outcome<HeapError>)
      requires Intact() && c in pageMap && !pageMap[c].large && c in content && i in content[c].objects
      modifies `pageMap, `pageTree, `freeMap, `freeTree, `content, `home, `loose, `nodes, `blocksCount, `objects, `damaged, `short, alloc, alloc.engine
      ensures Sound() && Listed() && alloc.canGrow == old(alloc.canGrow)
      ensures r == Fail(AssertionFailed) <==> EffectiveFree(old(content)[c].page) == 0
      ensures r == Fail(AssertionFailed) ==> objects == old(objects) && freeMap == old(freeMap)
      ensures r != Fail(AssertionFailed) ==> objects == old(objects) - {Ref(false, c, i)}
      ensures (Indexed() <==> r != Fail(BadAlloc)) && (damaged <==> r == Fail(BadAlloc))
      ensures r != Fail(BadAlloc) ==> FullPages(pageMap, freeMap) == old(FullPages(pageMap, freeMap))
      ensures r == Fail(AssertionFailed) ==> pageMap == old(pageMap)
      ensures r.Pass? || r == Fail(AssertionFailed) || (r == Fail(BadAlloc) && !alloc.canGrow)
      ensures Step(old(alloc.engine.blocks), old(alloc.owned), old(Mine()), alloc.engine.blocks, alloc.owned, Mine())
    {
      hide A.Allocator.Valid, Structure, Range, Count, Step, FreeOk, Flattened, NoEmptyPages, EffectiveFree, Freed,
           Heap.Owning, Heap.Held, EntryFor, PageHandle.Valid, PageHandle.Contents, Mirrors, Heap.Noded, FullPages;
      MineInside();
      StepRefl(alloc.engine.blocks, alloc.owned, Mine());
      var page := ReadPage(c);
      var available := page.EffectiveFreeBytes();
      var f := FreeEntry(available, c);
      EntryKnown(freeMap, pageMap, content, c);
      if f !in freeMap {
        return Fail(AssertionFailed);
      }
      var u := PageFree(page, i);
      var count := SlotCount(page);
      if count == 0 {
        NothingLeft(page);
        OnlyKey(content[c].objects, i);
        EntryIs(content[c].page, c, available);
        FreeOnly(c, i, Some(f));
        return Pass;
      }
      r := FreeOne(page, f, i);
    }

    /**
    Frees a live object: its reference is no longer live and all others stay as they are. The two
    ways in which this can fail for a live object are visible in the state beforehand.
    */
    method Free(ref: Option<Ref>) returns (r: Outcome<HeapError>)
      requires Valid()
      modifies this, alloc, alloc.engine
      ensures alloc.canGrow == old(alloc.canGrow)
      ensures ref.None? ==> r.Pass?
      ensures r.Pass? ==> Valid() && objects == if ref.None? then old(objects) else old(objects) - {ref.value}
      ensures ref.Some? && ref.value !in old(objects) ==> r.Fail? && Valid() && objects == old(objects)
      ensures ref.Some? && ref.value in old(objects) ==>
                && ref.value.block in old(content)
                && (r == Fail(AssertionFailed) <==> !ref.value.large && EffectiveFree(old(content)[ref.value.block].page) == 0)
      ensures ref.Some? && ref.value in old(objects) ==> r != Fail(BadArgument)
      ensures r == Fail(AssertionFailed) || r == Fail(BadArgument) ==> Valid() && objects == old(objects)
      ensures (damaged <==> r == Fail(BadAlloc)) && (damaged || Valid()) && (damaged ==> ref.Some? && ref.value in old(objects))
      ensures !damaged ==> FullPages(pageMap, freeMap) == old(FullPages(pageMap, freeMap))
      ensures r == Fail(BadAlloc) ==>
                && !alloc.canGrow && Sound() && !Indexed() && ref.Some? && objects == old(objects) - {ref.value}
                && objectsCount == |objects| + 1 && objectsSize > Weight(objects)
      ensures Step(old(alloc.engine.blocks), old(alloc.owned), old(Mine()), alloc.engine.blocks, alloc.owned, Mine())
    {
      hide Heap.Sound, Heap.Indexed, Step, EffectiveFree, Heap.Mine, Weight, Heap.Intact, FullPages;
      SoundNow();
      MineInside();
      StepRefl(alloc.engine.blocks, alloc.owned, Mine());
      if ref.None? {
        return Pass;
      }
      var n := Size(ref);
      if n.Failure? {
        return Fail(n.error);
      }
      r := FreeLive(ref.value, n.value);
    }

    /** Frees a live object of a known size. */
    method FreeLive(ref: Ref, n: nat) returns (r: Outcome<HeapError>)
      requires Valid() && ref in objects && n == |objects[ref]|
      modifies this, alloc, alloc.engine
      ensures alloc.canGrow == old(alloc.canGrow) && ref.block in old(content)
      ensures r == Fail(AssertionFailed) <==> !ref.large && EffectiveFree(old(content)[ref.block].page) == 0
      ensures r.Pass? || r == Fail(AssertionFailed) || r == Fail(BadAlloc)
      ensures objects == if r == Fail(AssertionFailed) then old(objects) else old(objects) - {ref}
      ensures (damaged <==> r == Fail(BadAlloc)) && (damaged || Valid())
      ensures !damaged ==> FullPages(pageMap, freeMap) == old(FullPages(pageMap, freeMap))
      ensures r == Fail(BadAlloc) ==>
                !alloc.canGrow && Sound() && !Indexed() && objectsCount == |objects| + 1 && objectsSize > Weight(objects)
      ensures Step(old(alloc.engine.blocks), old(alloc.owned), old(Mine()), alloc.engine.blocks, alloc.owned, Mine())
    {
      hide Heap.Sound, Heap.Indexed, Step, EffectiveFree, Heap.Mine, Weight, Heap.Intact, FullPages;
      SoundNow();
      OneLess(objects, ref);
      ObjectHasBytes(ref);
      r := FreeAt(ref);
      if r.Pass? {
        objectsCount := objectsCount - 1;
        objectsSize := objectsSize - n;
      }
    }

    /** Frees a live object; the counters are not updated yet. */
    method FreeAt(ref: Ref) returns (r: Outcome<HeapError>)
      requires Intact() && ref in objects
      modifies `pageMap, `pageTree, `freeMap, `freeTree, `content, `home, `loose, `nodes, `blocksCount, `objects, `damaged, `short, alloc, alloc.engine
      ensures Sound() && Listed() && alloc.canGrow == old(alloc.canGrow) && ref.block in old(content)
      ensures r == Fail(AssertionFailed) <==> !ref.large && EffectiveFree(old(content)[ref.block].page) == 0
      ensures objects == if r == Fail(AssertionFailed) then old(objects) else old(objects) - {ref}
      ensures (Indexed() <==> r != Fail(BadAlloc)) && (damaged <==> r == Fail(BadAlloc)) && (damaged || Intact())
      ensures !damaged ==> FullPages(pageMap, freeMap) == old(FullPages(pageMap, freeMap))
      ensures r.Pass? || r == Fail(AssertionFailed) || (r == Fail(BadAlloc) && !alloc.canGrow)
      ensures Step(old(alloc.engine.blocks), old(alloc.owned), old(Mine()), alloc.engine.blocks, alloc.owned, Mine())
    {
      hide A.Allocator.Valid, Structure, Range, Step, FreeOk, Flattened, NoEmptyPages, EffectiveFree, Heap.Owning, Heap.Mine, EntryFor, Mirrors, Heap.Noded, FullPages;
      IsLive(ref);
      if ref.large {
        LargeOf(alloc.engine.blocks, alloc.engine.blockSize, pageMap, content, home, ref.block);
        FreeOnly(ref.block, ref.slot, None);
        return Pass;
      }
      r := FreeSmall(ref.block, ref.slot);
    }

    lemma ObjectHasBytes(ref: Ref)
      requires Sound() && ref in objects
      ensures |objects[ref]| > 0
    {
      hide A.Allocator.Valid, Structure, Shows, NoEmptyPages, Range, Flattened, Cleared, LiveBytes;
      IsLive(ref);
      if ref.large {
        LargeOf(alloc.engine.blocks, alloc.engine.blockSize, pageMap, content, home, ref.block);
      } else {
        PageOf(alloc.engine.blocks, alloc.engine.blockSize, pageMap, content, home, ref.block);
      }
    }
  }

  lemma OneLess(objects: map<Ref, seq<byte>>, ref: Ref)
    requires ref in objects
    ensures |objects - {ref}| == |objects| - 1 && Weight(objects) == Weight(objects - {ref}) + |objects[ref]|
  {
    WeightWithout(objects, ref);
    assert (objects - {ref}).Keys == objects.Keys - {ref};
  }

  lemma EntryKnown(freeMap: set<FreeEntry>, pageMap: map<nat, Entry>, content: map<nat, Content>, c: nat)
    requires FreeOk(freeMap, pageMap, content) && c in pageMap && !pageMap[c].large && c in content && EffectiveFree(content[c].page) >= 0
    ensures FreeEntry(EffectiveFree(content[c].page), c) in freeMap <==> EffectiveFree(content[c].page) > 0
  {}

  /** The only entry of a page tells its free space. */
  lemma OneEntry(freeMap: set<FreeEntry>, pageMap: map<nat, Entry>, content: map<nat, Content>, f: FreeEntry)
    requires FreeOk(freeMap, pageMap, content) && f.block in content && f.available != EffectiveFree(content[f.block].page)
    ensures f !in freeMap
  {}

  lemma FullAfterDrop(freeMap: set<FreeEntry>, pageMap: map<nat, Entry>, content: map<nat, Content>, c: nat, available: Option<FreeEntry>)
    requires FreeOk(freeMap, pageMap, content) && c in pageMap && c in content
    requires (if available.Some? then {available.value} else {}) == if pageMap[c].large then {} else EntryFor(content[c].page, c)
    ensures available.Some? || pageMap[c].large ==>
              FullPages(pageMap - {c}, freeMap - if available.Some? then {available.value} else {}) == FullPages(pageMap, freeMap)
  {
    hide EffectiveFree;
    FullOfLarge(pageMap, freeMap, c, 0);
    if available.Some? {
      assert available.value in EntryFor(content[c].page, c);
      OnlyEntry(freeMap, pageMap, content, available.value);
      FullReplaced(pageMap, freeMap, available.value, 0);
    }
    assert freeMap - {} == freeMap;
  }

  lemma NewPageFull(freeMap: set<FreeEntry>, pageMap: map<nat, Entry>, content: map<nat, Content>, c: nat, available: nat)
    requires FreeOk(freeMap, pageMap, content) && c !in pageMap
    ensures Filled(FullPages(pageMap, freeMap), FullPages(pageMap[c := Entry(false, 1)], freeMap + {FreeEntry(available, c)}), c)
    ensures Filled(FullPages(pageMap, freeMap), FullPages(pageMap[c := Entry(false, 1)], freeMap), c)
  {
    FullAdded(pageMap, freeMap, c, available);
  }

  lemma NoEntry(freeMap: set<FreeEntry>, pageMap: map<nat, Entry>, content: map<nat, Content>, f: FreeEntry)
    requires FreeOk(freeMap, pageMap, content) && f.block !in pageMap
    ensures f !in freeMap
  {}

  /** An index of free space that lacks an entry is not complete. */
  lemma AllAreNeeded(free: set<FreeEntry>, less: set<FreeEntry>, pageMap: map<nat, Entry>, content: map<nat, Content>)
    requires FreeOk(free, pageMap, content) && less < free
    ensures !FreeOk(less, pageMap, content)
  {
    hide EffectiveFree;
    var f :| f in free && f !in less;
    assert FreeEntry(EffectiveFree(content[f.block].page), f.block) == f;
  }

  lemma OnlyKey(m: map<nat, seq<byte>>, i: nat)
    requires i in m && m - {i} == map[]
    ensures m.Keys == {i}
  {
    assert forall k :: k in m && k != i ==> k in m - {i};
  }

  method SlotCount(page: PageHandle) returns (n: nat)
    requires page.Valid()
    ensures n == |page.page.slots|
  {
    n := GetU32(page.block, 0);
  }

  lemma SlotsInUse(page: PageHandle)
    requires page.Valid()
    ensures forall j :: 0 <= j < |page.page.slots| ==> (page.page.slots[j].Valid() <==> j in page.Contents())
  {}

  /** The slots before that of a new object were in use. */
  ghost predicate LeastSlot(objects: map<Ref, seq<byte>>, ref: Ref) {
    forall j :: 0 <= j < ref.slot ==> Ref(false, ref.block, j) in objects
  }

  lemma FirstSlot(objects: map<nat, seq<byte>>, i: nat)
    requires objects.Keys == {} && forall j :: 0 <= j < i ==> j in objects.Keys
    ensures i == 0
  {
    assert i > 0 ==> 0 in objects.Keys;
  }

  lemma IsLeastSlot(objects: map<Ref, seq<byte>>, pageMap: map<nat, Entry>, content: map<nat, Content>, c: nat, i: nat)
    requires Flattened(objects, pageMap, content) && c in pageMap && !pageMap[c].large && c in content
    requires forall j :: 0 <= j < i ==> j in content[c].objects
    ensures LeastSlot(objects, Ref(false, c, i))
  {
    forall j | 0 <= j < i ensures Ref(false, c, j) in objects {
      assert j in content[c].objects;
    }
  }

  lemma NothingLeft(page: PageHandle)
    requires page.Valid() && |page.page.slots| == 0
    ensures page.Contents() == map[]
  {}

  /** Removing the only object of an allocation, and the allocation. */
  lemma LastGone(objects: map<Ref, seq<byte>>, freeMap: set<FreeEntry>, pageMap: map<nat, Entry>, content: map<nat, Content>, c: nat, i: nat)
    requires FreeOk(freeMap, pageMap, content) && Flattened(objects, pageMap, content) && NoEmptyPages(pageMap, content)
    requires c in pageMap && c in content && content[c].objects.Keys == {i}
    ensures FreeOk(freeMap - (if pageMap[c].large then {} else EntryFor(content[c].page, c)), pageMap - {c}, content - {c})
    ensures Flattened(objects - {Ref(pageMap[c].large, c, i)}, pageMap - {c}, content - {c}) && NoEmptyPages(pageMap - {c}, content - {c})
  {
    hide FreeOk, Flattened, EntryFor;
    var x := Content(content[c].page, map[]);
    assert content[c].objects - {i} == map[];
    FreeRemove(freeMap, pageMap, content, c);
    FlattenedDrop(objects, pageMap, content, c, x, i);
    FlattenedRemove(objects - {Ref(pageMap[c].large, c, i)}, pageMap, content[c := x], c);
    assert content[c := x] - {c} == content - {c};
  }

  /** Removing one object of a page whose entry in the free map is replaced. */
  lemma OneGone(objects: map<Ref, seq<byte>>, freeMap: set<FreeEntry>, pageMap: map<nat, Entry>, content: map<nat, Content>, f: FreeEntry, i: nat, x: Content)
    requires FreeOk(freeMap, pageMap, content) && Flattened(objects, pageMap, content) && NoEmptyPages(pageMap, content)
    requires f in freeMap && f.block in pageMap && f.block in content && !pageMap[f.block].large
    requires x.objects == content[f.block].objects - {i} && |x.page.slots| > 0 && EffectiveFree(x.page) > 0
    ensures FreeOk(freeMap - {f} + EntryFor(x.page, f.block), pageMap, content[f.block := x])
    ensures FreeEntry(EffectiveFree(x.page), f.block) !in freeMap - {f}
    ensures Flattened(objects - {Ref(false, f.block, i)}, pageMap, content[f.block := x]) && NoEmptyPages(pageMap, content[f.block := x])
  {
    hide Flattened, NoEmptyPages, EffectiveFree;
    EntryFound(freeMap, pageMap, content, f);
    FreeSet(freeMap, pageMap, content, f.block, x);
    FlattenedDrop(objects, pageMap, content, f.block, x, i);
    NoEmptySet(pageMap, content, f.block, x);
    assert forall g :: g in freeMap && g.block == f.block ==> g == f;
    assert FreeEntry(EffectiveFree(x.page), f.block) !in freeMap - {f};
  }

  lemma Stored(objects: map<Ref, seq<byte>>, freeMap: set<FreeEntry>, pageMap: map<nat, Entry>, content: map<nat, Content>, ref: Ref, x: Content, data: seq<byte>)
    requires FreeOk(freeMap, pageMap, content) && Flattened(objects, pageMap, content) && NoEmptyPages(pageMap, content)
    requires ref.block in pageMap && ref.block in content && pageMap[ref.block].large == ref.large
    requires x.page == content[ref.block].page && x.objects == content[ref.block].objects[ref.slot := data]
    requires ref in objects && |data| == |objects[ref]|
    ensures var objects', content' := objects[ref := data], content[ref.block := x];
            FreeOk(freeMap, pageMap, content') && Flattened(objects', pageMap, content') && NoEmptyPages(pageMap, content')
    ensures |objects[ref := data]| == |objects| && Weight(objects[ref := data]) == Weight(objects)
  {
    hide FreeOk, Flattened, NoEmptyPages, EffectiveFree, Weight;
    FreeSame(freeMap, pageMap, content, ref.block, x);
    FlattenedSet(objects, pageMap, content, ref.block, x, ref.slot, data);
    NoEmptySame(pageMap, content, ref.block, x);
    WeightSet(objects, ref, data);
    assert objects[ref := data].Keys == objects.Keys;
  }

  lemma NewLarge(objects: map<Ref, seq<byte>>, freeMap: set<FreeEntry>, pageMap: map<nat, Entry>, content: map<nat, Content>, c: nat, e: Entry, x: Content)
    requires FreeOk(freeMap, pageMap, content) && Flattened(objects, pageMap, content) && NoEmptyPages(pageMap, content)
    requires c !in pageMap && c !in content && e.large && x.objects.Keys == {0}
    ensures FreeOk(freeMap, pageMap[c := e], content[c := x]) && NoEmptyPages(pageMap[c := e], content[c := x])
    ensures Ref(true, c, 0) !in objects && Flattened(objects[Ref(true, c, 0) := x.objects[0]], pageMap[c := e], content[c := x])
  {
    hide FreeOk, Flattened, NoEmptyPages, EntryFor;
    var x0 := Content(x.page, map[]);
    FreeAdd(freeMap, pageMap, content, c, e, x);
    FlattenedAdd(objects, pageMap, content, c, e, x0);
    FlattenedNew(objects, pageMap[c := e], content[c := x0], c, 0);
    FlattenedSet(objects, pageMap[c := e], content[c := x0], c, x, 0, x.objects[0]);
    assert content[c := x0][c := x] == content[c := x];
    NoEmptyAdd(pageMap, content, c, e, x);
    assert freeMap + {} == freeMap;
  }

  lemma KeptFileSize(b0: seq<Block>, o0: set<nat>, m0: set<nat>, b1: seq<Block>, o1: set<nat>, m1: set<nat>)
    requires Step(b0, o0, m0, b1, o1, m1)
    ensures |b0| <= |b1|
  {}

  lemma LargeWindow(blocks: seq<Block>, bs: nat, c: nat, k: nat, data: seq<byte>)
    requires Uniform(blocks, bs) && c + k <= |blocks| && LargeHolds(blocks[c..c + k], bs, data)
    ensures c * bs + LARGE_HEADER + |data| <= |blocks| * bs
    ensures Decode(Flat(blocks, bs)[c * bs..c * bs + LARGE_HEADER]) == |data|
    ensures Flat(blocks, bs)[c * bs + LARGE_HEADER..c * bs + LARGE_HEADER + |data|] == data
  {
    hide Flat, Decode;
    RunWindow(blocks, bs, c, k, 0, LARGE_HEADER);
    RunWindow(blocks, bs, c, k, LARGE_HEADER, |data|);
    LargeRead(blocks[c..c + k], bs, data);
  }

  lemma LargeInside(blocks: seq<Block>, bs: nat, c: nat, k: nat, data: seq<byte>)
    requires Uniform(blocks, bs) && c + k <= |blocks| && LargeHolds(blocks[c..c + k], bs, data)
    ensures 0 < |data| && LARGE_HEADER + |data| <= k * bs && c * bs + k * bs <= |blocks| * bs
  {}

  lemma SliceSize(b: Block, lo: nat, hi: nat)
    requires lo <= hi <= |b|
    ensures |b[lo..hi]| == hi - lo
  {}

  lemma PageIsHeld(page: PageHandle)
    requires page.Valid()
    ensures PageHolds(page.block, Content(page.page, page.Contents()))
  {}

  lemma AllocatorInside(alloc: A.Allocator)
    requires alloc.Valid()
    ensures alloc.Pool() <= alloc.owned
  {}
}
