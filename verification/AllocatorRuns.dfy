/**
Whole runs of the allocator: any sequence of operations, with any outcome, keeps all live allocations
apart and their content intact.
*/
module AllocatorRuns {
  import opened Blocks
  import opened Runs
  import opened Wrappers
  import A = Allocator
  import F = FreeSpace
  import E = Extents
  import MetaPool

  /** Operations name allocations by the number of the step that made them. */
  datatype Operation =
    | AddRegion(block: Option<nat>, size: nat)
    | Allocate(size: nat)
    | Reallocate(id: nat, size: nat)
    | Free(id: nat)
    | Write(id: nat, index: nat, data: Block)

  type Contents = map<nat, seq<Block>>

  /**
  The content of the allocations and where they are, the size of the file, the blocks that the allocator manages,
  the free ones, and whether its reserve of metadata needs no change.
  */
  datatype State = State(contents: Contents, place: map<nat, F.Extent>, fileSize: nat, owned: set<nat>, free: set<nat>, settled: bool)

  /** The smallest run of free blocks that is large enough, and the first of those. */
  ghost predicate BestRun(free: set<nat>, n: nat, e: F.Extent) {
    && IsRun(free, e.block, e.End()) && e.size >= n
    && forall f: F.Extent :: IsRun(free, f.block, f.End()) && f.size >= n ==> F.BySize(e, f)
  }

  /** Free blocks are used before the file grows. */
  ghost predicate Reuses(free: set<nat>, n: nat, fileSize: nat, ok: bool, block: nat, fileSize': nat, canGrow: bool) {
    && (forall e :: BestRun(free, n, e) ==> ok && block == e.block && fileSize' == fileSize)
    && ((forall e: F.Extent :: IsRun(free, e.block, e.End()) ==> e.size < n) ==> (ok <==> canGrow) && (ok ==> fileSize' > fileSize))
  }

  /** The allocation does not become larger, or the blocks behind it are free. */
  ghost predicate StaysPut(x: F.Extent, n: nat, free: set<nat>) {
    n <= x.size || Range(x.End(), x.block + n) <= free
  }

  lemma {:induction false} ReusesIf(extents: set<F.Extent>, free: set<nat>, n: nat, fileSize: nat, canGrow: bool, minChunk: nat, r: Result<nat, A.Error>, fileSize': nat)
    requires F.Canonical(extents, free) && n > 0 && A.Places(extents, n, fileSize, canGrow, minChunk, r, fileSize')
    ensures Reuses(free, n, fileSize, r.Success?, if r.Success? then r.value else 0, fileSize', canGrow)
  {
    hide F.Canonical, IsRun, A.Chunk, F.BySize;
    forall e: F.Extent ensures e in extents <==> IsRun(free, e.block, e.End()) {
      F.ExtentIff(extents, free, e);
    }
    forall e | BestRun(free, n, e) ensures r == Success(e.block) && fileSize' == fileSize {
      assert e in extents;
    }
    if forall e: F.Extent :: IsRun(free, e.block, e.End()) ==> e.size < n {
      if canGrow {
        if e :| e in extents && e.End() == fileSize {
          assert r == Success(e.block);
        }
      }
    }
  }

  lemma RoomIf(extents: set<F.Extent>, free: set<nat>, x: F.Extent, n: nat)
    requires F.Canonical(extents, free) && x.size > 0 && x.Blocks() !! free && n > x.size && Range(x.End(), x.block + n) <= free
    ensures exists e :: e in extents && F.Touch(x, e) && e.size >= n - x.size
  {
    assert x.End() in Range(x.End(), x.block + n);
    var e :| e in extents && e.block <= x.End() < e.End();
    assert x.End() - 1 in x.Blocks();
    var end: nat := e.End();
    assert end !in Range(x.End(), x.block + n);
  }

  lemma GrowsInPlace(extents: set<F.Extent>, free: set<nat>, x: F.Extent, n: nat, fileSize: nat, minChunk: nat, r: Result<nat, A.Error>, fileSize': nat)
    requires F.Canonical(extents, free) && 0 < x.size < n && x.Blocks() !! free && Range(x.End(), x.block + n) <= free
    requires A.Grows(extents, x, n, fileSize, minChunk, r, fileSize')
    ensures r == Success(x.block) && fileSize' == fileSize
  {
    hide F.Canonical, Range, A.Chunk;
    RoomIf(extents, free, x, n);
  }

  lemma SpaceIs(alloc: A.Allocator)
    requires alloc.Valid()
    ensures F.Canonical(alloc.byPosition.extents, alloc.free) && (forall b :: b in alloc.owned ==> b < |alloc.engine.blocks|) && alloc.Live() !! alloc.free
  {}

  /** One allocation has another size, and its content starts as it did. */
  ghost predicate Resized(content: Contents, content': Contents, id: nat, size: nat) {
    && id in content && id in content' && content' == content[id := content'[id]] && |content'[id]| == size
    && var k := Least(size, |content[id]|); content'[id][..k] == content[id][..k]
  }

  /**
  What an operation does, and whether it succeeds. Allocation and growth succeed if the file may grow, keeping
  or reducing a size always does, and a failure changes no content; new blocks have arbitrary content. The allocator takes nothing but
  the regions that it is given and new blocks at the end of the file.
  */
  ghost predicate Explains(s: State, op: Operation, step: nat, ok: bool, s': State, canGrow: bool) {
    && (!ok ==> s'.contents == s.contents)
    && match op
       case AddRegion(block, n) =>
         && (ok <==> block.Some? && 0 < n && block.value + n <= s.fileSize)
         && s'.contents == s.contents && s'.place == s.place && s'.fileSize == s.fileSize
         && s'.owned == if ok then s.owned + Range(block.value, block.value + n) else s.owned
       case Allocate(n) =>
         && A.OnlyNew(s.owned, s'.owned, s.fileSize) && (n == 0 ==> !ok) && (n > 0 && canGrow ==> ok)
         && (ok ==> step in s'.contents && |s'.contents[step]| == n && s'.contents == s.contents[step := s'.contents[step]])
         && (if ok then step in s'.place && s'.place[step].size == n && s'.place == s.place[step := s'.place[step]] else s'.place == s.place)
         && (n > 0 && s.settled ==> Reuses(s.free, n, s.fileSize, ok, if ok then s'.place[step].block else 0, s'.fileSize, canGrow))
         && (s'.fileSize == s.fileSize ==> s'.owned == s.owned)
       case Reallocate(id, n) =>
         && A.OnlyNew(s.owned, s'.owned, s.fileSize)
         && (id !in s.contents ==> !ok) && (id in s.contents && (canGrow || n <= |s.contents[id]|) ==> ok)
         && (ok && n == 0 ==> s'.contents == s.contents - {id})
         && (ok && n > 0 ==> Resized(s.contents, s'.contents, id, n))
         && (id in s.contents && n > 0 && id in s.place && StaysPut(s.place[id], n, s.free) ==>
               ok && s'.place == s.place[id := F.Extent(s.place[id].block, n)] && s'.fileSize == s.fileSize)
         && (forall i :: i in s.place && i != id ==> i in s'.place && s'.place[i] == s.place[i])
       case Free(id) =>
         && s'.owned == s.owned && s'.fileSize == s.fileSize && (ok <==> id in s.contents)
         && s'.contents == s.contents - {id} && s'.place == s.place - {id}
       case Write(id, index, data) =>
         && s'.owned == s.owned && s'.place == s.place && s'.fileSize == s.fileSize && (ok <==> id in s.contents && index < |s.contents[id]|)
         && (ok ==> s'.contents == s.contents[id := s.contents[id][index := data]])
  }

  lemma ExplainResized(s: State, id: nat, n: nat, s': State, canGrow: bool, block: nat)
    requires n > 0 && Resized(s.contents, s'.contents, id, n) && id in s.place && s'.place == s.place[id := F.Extent(block, n)]
    requires A.OnlyNew(s.owned, s'.owned, s.fileSize) && (StaysPut(s.place[id], n, s.free) ==> block == s.place[id].block && s'.fileSize == s.fileSize)
    ensures Explains(s, Operation.Reallocate(id, n), 0, true, s', canGrow)
  {}

  lemma ExplainMissing(s: State, id: nat, n: nat, canGrow: bool)
    requires id !in s.contents && A.OnlyNew(s.owned, s.owned, s.fileSize)
    ensures Explains(s, Operation.Reallocate(id, n), 0, false, s, canGrow)
  {}

  lemma ExplainFreed(s: State, id: nat, s': State, canGrow: bool)
    requires id in s.contents && A.OnlyNew(s.owned, s'.owned, s.fileSize) && s'.contents == s.contents - {id} && s'.place == s.place - {id}
    ensures Explains(s, Operation.Reallocate(id, 0), 0, true, s', canGrow)
  {}

  lemma ExplainRefused(s: State, id: nat, n: nat, s': State, canGrow: bool)
    requires n > 0 && id in s.contents && id in s.place && |s.contents[id]| < n && !canGrow && s'.contents == s.contents && s'.place == s.place
    requires A.OnlyNew(s.owned, s'.owned, s.fileSize) && !StaysPut(s.place[id], n, s.free)
    ensures Explains(s, Operation.Reallocate(id, n), 0, false, s', canGrow)
  {}

  /** Regions lie in the file, and no block is claimed twice. */
  ghost predicate Claimable(ops: seq<Operation>, owned: set<nat>, fileSize: nat) {
    && (forall i :: 0 <= i < |ops| ==> Claim(ops[i]) !! owned && forall b :: b in Claim(ops[i]) ==> b < fileSize)
    && (forall i, j :: 0 <= i < j < |ops| ==> Claim(ops[i]) !! Claim(ops[j]))
  }

  ghost function Claim(op: Operation): set<nat> {
    if op.AddRegion? && op.block.Some? then Range(op.block.value, op.block.value + op.size) else {}
  }

  // ---- Separation and content.

  /** The live blocks are split exactly between the allocations. */
  ghost predicate Split(extents: map<nat, F.Extent>, live: set<nat>) {
    && (forall k :: k in extents ==> extents[k].Blocks() <= live)
    && (forall j, k :: j in extents && k in extents && j != k ==> extents[j].Blocks() !! extents[k].Blocks())
    && (forall b :: b in live ==> exists k :: k in extents && b in extents[k].Blocks())
  }

  ghost predicate Holds(e: F.Extent, blocks: seq<Block>, content: seq<Block>) {
    e.size > 0 && e.End() <= |blocks| && blocks[e.block..e.End()] == content
  }

  ghost predicate AllHold(extents: map<nat, F.Extent>, blocks: seq<Block>, content: map<nat, seq<Block>>) {
    content.Keys == extents.Keys && forall k :: k in extents ==> Holds(extents[k], blocks, content[k])
  }

  lemma SplitAdd(extents: map<nat, F.Extent>, live: set<nat>, id: nat, e: F.Extent)
    requires Split(extents, live) && id !in extents && e.Blocks() !! live
    ensures Split(extents[id := e], live + e.Blocks())
  {
    hide Range;
    var extents' := extents[id := e];
    forall b | b in live + e.Blocks() ensures exists k :: k in extents' && b in extents'[k].Blocks() {
      if b in e.Blocks() {
        assert id in extents' && b in extents'[id].Blocks();
      } else {
        var k :| k in extents && b in extents[k].Blocks();
        assert k in extents' && b in extents'[k].Blocks();
      }
    }
  }

  lemma SplitRemove(extents: map<nat, F.Extent>, live: set<nat>, id: nat)
    requires Split(extents, live) && id in extents
    ensures Split(extents - {id}, live - extents[id].Blocks())
  {
    hide Range;
    var extents' := extents - {id};
    forall b | b in live - extents[id].Blocks() ensures exists k :: k in extents' && b in extents'[k].Blocks() {
      var k :| k in extents && b in extents[k].Blocks();
      assert k in extents' && b in extents'[k].Blocks();
    }
  }

  /** The blocks of all allocations, and how many there are. */
  ghost function Covered(extents: map<nat, F.Extent>): set<nat> {
    set k, b | k in extents && b in extents[k].Blocks() :: b
  }

  ghost function TotalSize(extents: map<nat, F.Extent>): nat {
    if extents == map[] then 0
    else
      var k :| k in extents;
      extents[k].size + TotalSize(extents - {k})
  }

  lemma SplitCovers(extents: map<nat, F.Extent>, live: set<nat>)
    requires Split(extents, live)
    ensures Covered(extents) == live
  {
    hide Range;
    forall b | b in live ensures b in Covered(extents) {
      var k :| k in extents && b in extents[k].Blocks();
    }
    forall b | b in Covered(extents) ensures b in live {
      var k :| k in extents && b in extents[k].Blocks();
    }
  }

  lemma {:induction false} SplitTotal(extents: map<nat, F.Extent>, live: set<nat>)
    requires Split(extents, live)
    ensures |live| == TotalSize(extents)
    decreases |extents|
  {
    hide Range, Split;
    if extents == map[] {
      SplitCovers(extents, live);
    } else {
      var k :| k in extents && TotalSize(extents) == extents[k].size + TotalSize(extents - {k});
      SplitRemove(extents, live, k);
      SplitInside(extents, live);
      SplitTotal(extents - {k}, live - extents[k].Blocks());
      RangeSize(extents[k].block, extents[k].End());
      CountMinus(live, extents[k].Blocks());
    }
  }

  /** A region that nobody manages yet stays so until it is added. */
  lemma StillFree(s: State, op: Operation, step: nat, ok: bool, s': State, canGrow: bool, claim: set<nat>, fileSize: nat)
    requires Explains(s, op, step, ok, s', canGrow) && claim !! s.owned && claim !! Claim(op) && fileSize <= s.fileSize
    requires forall b :: b in claim ==> b < fileSize
    ensures claim !! s'.owned
  {}

  lemma HoldsKept(e: F.Extent, before: seq<Block>, after: seq<Block>, content: seq<Block>, except: set<nat>)
    requires Holds(e, before, content) && A.Kept(before, after, except) && e.Blocks() !! except
    ensures Holds(e, after, content)
  {}

  lemma KeptSize(before: seq<Block>, after: seq<Block>, except: set<nat>)
    requires A.Kept(before, after, except)
    ensures |before| <= |after|
  {}

  lemma AllKept(extents: map<nat, F.Extent>, before: seq<Block>, after: seq<Block>, content: map<nat, seq<Block>>, except: set<nat>)
    requires AllHold(extents, before, content) && A.Kept(before, after, except)
    requires forall k :: k in extents ==> extents[k].Blocks() !! except
    ensures AllHold(extents, after, content)
  {}

  lemma OthersApart(extents: map<nat, F.Extent>, live: set<nat>, id: nat, pool: set<nat>)
    requires Split(extents, live) && live !! pool
    ensures forall k :: k in extents && k != id ==> extents[k].Blocks() !! pool + (if id in extents then extents[id].Blocks() else {})
  {}

  lemma SplitInside(extents: map<nat, F.Extent>, live: set<nat>)
    requires Split(extents, live)
    ensures forall k :: k in extents ==> extents[k].Blocks() <= live
  {}

  lemma LiveIsNotPool(owned: set<nat>, pool: set<nat>)
    ensures owned - pool !! pool
  {}

  lemma NowHolds(e: F.Extent, blocks: seq<Block>)
    requires e.size > 0 && e.End() <= |blocks|
    ensures Holds(e, blocks, blocks[e.block..e.End()])
  {}

  lemma HasSize(extents: map<nat, F.Extent>, blocks: seq<Block>, content: Contents, id: nat)
    requires AllHold(extents, blocks, content) && id in extents
    ensures extents[id].size > 0 && extents[id].End() <= |blocks| && content[id] == blocks[extents[id].block..extents[id].End()]
  {}

  /** The allocations after one block of one of them was overwritten. */
  lemma Rewritten(extents: map<nat, F.Extent>, live: set<nat>, before: seq<Block>, after: seq<Block>, content: Contents, id: nat, index: nat, data: Block)
    requires id in extents && id in content && index < extents[id].size == |content[id]| && extents[id].End() <= |before|
    requires |after| == |before| && after == before[extents[id].block + index := data]
    requires Split(extents, live) && AllHold(extents, before, content)
    ensures AllHold(extents, after, content[id := content[id][index := data]])
  {
    hide Range, Split, A.Kept;
    var e := extents[id];
    OthersApart(extents, live, id, {});
    A.Copied(before, after, e.block, e.size);
    forall k | k in extents ensures Holds(extents[k], after, content[id := content[id][index := data]][k]) {
      if k != id {
        HoldsKept(extents[k], before, after, content[k], e.Blocks());
      } else {
        assert after[e.block..e.End()] == before[e.block..e.End()][index := data];
      }
    }
  }

  lemma SameIds(extents: map<nat, F.Extent>, blocks: seq<Block>, content: Contents)
    requires AllHold(extents, blocks, content)
    ensures content.Keys == extents.Keys
  {}

  lemma HoldWithout(extents: map<nat, F.Extent>, blocks: seq<Block>, content: Contents, id: nat)
    requires AllHold(extents, blocks, content)
    ensures AllHold(extents - {id}, blocks, content - {id})
  {}

  lemma ReallocatedApart(before: seq<Block>, after: seq<Block>, live: set<nat>, live': set<nat>, pool: set<nat>,
                         e: F.Extent, to: nat, size: nat)
    requires A.Reallocated(before, after, live, live', pool, e, to, size)
    ensures live' == live - e.Blocks() + Range(to, to + size) && Range(to, to + size) !! live - e.Blocks()
  {}

  /** The allocations after one of them was replaced by `e`. */
  lemma Resettled(extents: map<nat, F.Extent>, live: set<nat>, live': set<nat>, before: seq<Block>, after: seq<Block>, content: Contents,
                  pool: set<nat>, id: nat, e: F.Extent)
    requires id in extents && live !! pool && e.size > 0 && e.End() <= |after|
    requires A.Reallocated(before, after, live, live', pool, extents[id], e.block, e.size) && A.Kept(before, after, pool + extents[id].Blocks())
    requires Split(extents, live) && AllHold(extents, before, content)
    ensures Split(extents[id := e], live') && AllHold(extents[id := e], after, content[id := after[e.block..e.End()]])
  {
    hide Range, Split, Holds, A.Kept, A.Reallocated, AllHold;
    var x, rest := extents[id], extents - {id};
    OthersApart(extents, live, id, pool);
    SplitRemove(extents, live, id);
    ReallocatedApart(before, after, live, live', pool, x, e.block, e.size);
    SplitAdd(rest, live - x.Blocks(), id, e);
    assert rest[id := e] == extents[id := e];
    HoldWithout(extents, before, content, id);
    AllKept(rest, before, after, content - {id}, pool + x.Blocks());
    HoldWith(rest, after, content - {id}, id, e);
    assert (content - {id})[id := after[e.block..e.End()]] == content[id := after[e.block..e.End()]];
  }

  lemma HoldWith(extents: map<nat, F.Extent>, blocks: seq<Block>, content: Contents, id: nat, e: F.Extent)
    requires AllHold(extents, blocks, content) && e.size > 0 && e.End() <= |blocks|
    ensures AllHold(extents[id := e], blocks, content[id := blocks[e.block..e.End()]])
  {}

  lemma NothingAllocated(extents: map<nat, F.Extent>, blocks: seq<Block>, content: Contents)
    requires AllHold(extents, blocks, content) && extents == map[]
    ensures content == map[]
  {}

  class Run {
    const alloc: A.Allocator
    var extents: map<nat, F.Extent>
    ghost var content: map<nat, seq<Block>>

    ghost predicate Valid()
      reads this, alloc, alloc.engine
    {
      && alloc.Valid() && Split(extents, alloc.Live()) && AllHold(extents, alloc.engine.blocks, content)
      && (extents != map[] ==> alloc.metaTotal >= A.REQUIRED_TOTAL)
    }

    ghost function StateNow(): State
      reads this, alloc, alloc.engine
    {
      State(content, extents, |alloc.engine.blocks|, alloc.owned, alloc.free, alloc.metaTotal >= A.REQUIRED_TOTAL && alloc.Settled())
    }

    constructor (alloc: A.Allocator)
      requires alloc.Valid() && alloc.Live() == {}
      ensures Valid() && this.alloc == alloc && extents == map[]
    {
      this.alloc, extents, content := alloc, map[], map[];
    }

    // ---- The operations.

    /** Adds a region of the file that is not managed yet. */
    method AddRegion(block: Option<nat>, size: nat) returns (r: Outcome<A.Error>)
      requires Valid() && (block.Some? ==> Range(block.value, block.value + size) !! alloc.owned)
      modifies this, alloc, alloc.engine
      ensures Valid() && extents == old(extents) && alloc.canGrow == old(alloc.canGrow)
      ensures Explains(old(StateNow()), Operation.AddRegion(block, size), 0, r.Pass?, StateNow(), alloc.canGrow)
    {
      hide Range, Split, Holds, A.Kept, A.Allocator.Valid;
      ghost var region: set<nat> := if block.Some? then Range(block.value, block.value + size) else {};
      ghost var live, before, pool := alloc.Live(), alloc.engine.blocks, alloc.Pool();
      SplitInside(extents, live);
      LiveIsNotPool(alloc.owned, pool);
      r := alloc.AddRegion(block, size);
      if r.Pass? {
        assert live !! pool + region;
        AllKept(extents, before, alloc.engine.blocks, content, pool + region);
      }
    }

    /** What the allocator's own call does to the file, seen from the allocations that there are. */
    method Take(size: nat) returns (r: Result<nat, A.Error>)
      requires Valid()
      modifies alloc, alloc.engine
      ensures alloc.Valid() && alloc.canGrow == old(alloc.canGrow) && |alloc.engine.blocks| >= |old(alloc.engine.blocks)|
      ensures (size == 0 ==> r.Failure?) && (size > 0 && alloc.canGrow ==> r.Success?)
      ensures A.OnlyNew(old(alloc.owned), alloc.owned, |old(alloc.engine.blocks)|)
      ensures |alloc.engine.blocks| == |old(alloc.engine.blocks)| ==> alloc.owned == old(alloc.owned)
      ensures size > 0 && old(alloc.metaTotal >= A.REQUIRED_TOTAL && alloc.Settled()) ==>
                Reuses(old(alloc.free), size, |old(alloc.engine.blocks)|, r.Success?, if r.Success? then r.value else 0, |alloc.engine.blocks|, alloc.canGrow)
      ensures r.Success? || old(alloc.metaTotal) >= A.REQUIRED_TOTAL ==> alloc.metaTotal >= A.REQUIRED_TOTAL
      ensures AllHold(extents, alloc.engine.blocks, content)
      ensures r.Failure? ==> alloc.Live() == old(alloc.Live())
      ensures r.Success? ==>
                && alloc.Live() == old(alloc.Live()) + Range(r.value, r.value + size) && Range(r.value, r.value + size) !! old(alloc.Live())
                && r.value + size <= |alloc.engine.blocks|
    {
      hide Range, Split, Holds, AllHold, A.Kept, A.OnlyNew, A.Allocator.Valid, A.Places, A.Chunk, A.Allocator.Settled, Reuses, F.Canonical;
      ghost var live, before, pool, extents0, free0, owned0 := alloc.Live(), alloc.engine.blocks, alloc.Pool(), alloc.byPosition.extents, alloc.free, alloc.owned;
      SpaceIs(alloc);
      r := alloc.Allocate(size);
      if size > 0 && old(alloc.metaTotal >= A.REQUIRED_TOTAL && alloc.Settled()) {
        ReusesIf(extents0, free0, size, |before|, alloc.canGrow, alloc.minChunk, r, |alloc.engine.blocks|);
      }
      SpaceIs(alloc);
      SplitInside(extents, live);
      LiveIsNotPool(owned0, pool);
      AllKept(extents, before, alloc.engine.blocks, content, pool);
      if r.Success? {
        E.InFile(alloc, r.value, size);
      }
    }

    method Allocate(size: nat, id: nat) returns (r: Result<nat, A.Error>)
      requires Valid() && id !in extents
      modifies this, alloc, alloc.engine
      ensures Valid() && alloc.canGrow == old(alloc.canGrow) && |alloc.engine.blocks| >= |old(alloc.engine.blocks)|
      ensures Explains(old(StateNow()), Operation.Allocate(size), id, r.Success?, StateNow(), alloc.canGrow)
      ensures extents.Keys == if r.Success? then old(extents).Keys + {id} else old(extents).Keys
    {
      hide Range, Split, Holds, A.OnlyNew, A.Allocator.Valid, A.Allocator.Settled, Reuses;
      ghost var live := alloc.Live();
      r := Take(size);
      if r.Failure? {
        return;
      }
      var e := F.Extent(r.value, size);
      SplitAdd(extents, live, id, e);
      NowHolds(e, alloc.engine.blocks);
      extents := extents[id := e];
      content := content[id := alloc.engine.blocks[e.block..e.End()]];
    }

    method Free(id: nat) returns (ok: bool)
      requires Valid()
      modifies this, alloc, alloc.engine
      ensures Valid() && content == old(content) - {id} && extents == old(extents) - {id} && alloc.canGrow == old(alloc.canGrow)
      ensures (ok <==> id in old(content)) && alloc.owned == old(alloc.owned) && |alloc.engine.blocks| == |old(alloc.engine.blocks)|
    {
      hide Range, Split, Holds, A.Kept, A.OnlyNew, A.Allocator.Valid;
      ok := id in extents;
      if !ok {
        return;
      }
      var e := extents[id];
      ghost var live, before, pool := alloc.Live(), alloc.engine.blocks, alloc.Pool();
      SplitInside(extents, live);
      OthersApart(extents, live, id, pool);
      alloc.Free(Some(e.block), e.size);
      SplitRemove(extents, live, id);
      extents, content := extents - {id}, content - {id};
      HoldWithout(old(extents), before, old(content), id);
      AllKept(extents, before, alloc.engine.blocks, content, pool + e.Blocks());
    }

    method Write(id: nat, index: nat, data: Block) returns (ok: bool)
      requires Valid() && |data| == alloc.engine.blockSize
      modifies this, alloc.engine
      ensures Valid() && extents == old(extents)
      ensures Explains(old(StateNow()), Operation.Write(id, index, data), 0, ok, StateNow(), alloc.canGrow)
    {
      hide Range, Split, AllHold, A.Kept, A.OnlyNew, F.Canonical, MetaPool.Split, A.Placed, Flat;
      SameIds(extents, alloc.engine.blocks, content);
      ok := id in extents && index < extents[id].size;
      if id in extents {
        HasSize(extents, alloc.engine.blocks, content, id);
      }
      if !ok {
        return;
      }
      var e := extents[id];
      ghost var before := alloc.engine.blocks;
      alloc.engine.Overwrite(e.block + index, data);
      assert data + Zeros(0) == data;
      Rewritten(extents, alloc.Live(), before, alloc.engine.blocks, content, id, index, data);
      content := content[id := content[id][index := data]];
    }

    /** What the allocator's own call does to one allocation. */
    method Resize(e: F.Extent, size: nat) returns (r: Result<nat, A.Error>)
      requires alloc.Valid() && alloc.metaTotal >= A.REQUIRED_TOTAL && e.size > 0 && size > 0 && e.Blocks() <= alloc.Live()
      modifies alloc, alloc.engine
      ensures alloc.Valid() && alloc.metaTotal >= A.REQUIRED_TOTAL && alloc.canGrow == old(alloc.canGrow)
      ensures A.OnlyNew(old(alloc.owned), alloc.owned, |old(alloc.engine.blocks)|) && (alloc.canGrow || size <= e.size ==> r.Success?)
      ensures StaysPut(e, size, old(alloc.free)) ==> r == Success(e.block) && |alloc.engine.blocks| == |old(alloc.engine.blocks)|
      ensures r.Success? ==>
                A.Reallocated(old(alloc.engine.blocks), alloc.engine.blocks, old(alloc.Live()), alloc.Live(), old(alloc.Pool()), e, r.value, size)
      ensures r.Failure? ==> alloc.Live() == old(alloc.Live()) && A.Kept(old(alloc.engine.blocks), alloc.engine.blocks, old(alloc.Pool()))
    {
      hide Range, A.Kept, A.OnlyNew, A.Allocator.Valid, A.Reallocated, A.HasRoom, A.AtEnd, A.Refuses, A.Places, A.Grows, A.Chunk, A.Allocator.Settled, F.Canonical;
      SpaceIs(alloc);
      ghost var extents0, free0, fileSize := alloc.byPosition.extents, alloc.free, |alloc.engine.blocks|;
      r := alloc.Reallocate(e, size);
      if size > e.size && StaysPut(e, size, free0) {
        GrowsInPlace(extents0, free0, e, size, fileSize, alloc.minChunk, r, |alloc.engine.blocks|);
      }
    }

    method Reallocate(id: nat, size: nat) returns (r: Outcome<A.Error>)
      requires Valid()
      modifies this, alloc, alloc.engine
      ensures Valid() && alloc.canGrow == old(alloc.canGrow) && |alloc.engine.blocks| >= |old(alloc.engine.blocks)|
      ensures Explains(old(StateNow()), Operation.Reallocate(id, size), 0, r.Pass?, StateNow(), alloc.canGrow)
      ensures forall k :: k in extents ==> k in old(extents)
    {
      hide Range, Split, Holds, AllHold, A.Kept, A.OnlyNew, A.Allocator.Valid, A.Reallocated, A.Allocator.Settled, StaysPut, Explains;
      SameIds(extents, alloc.engine.blocks, content);
      if id !in extents {
        A.OnlyNewExtent(alloc.owned, F.Extent(|alloc.engine.blocks|, 0));
        ExplainMissing(StateNow(), id, size, alloc.canGrow);
        return Fail(A.BadArgument);
      }
      if size == 0 {
        A.OnlyNewExtent(alloc.owned, F.Extent(|alloc.engine.blocks|, 0));
        var ok := Free(id);
        ExplainFreed(old(StateNow()), id, StateNow(), alloc.canGrow);
        return Pass;
      }
      var e := extents[id];
      HasSize(extents, alloc.engine.blocks, content, id);
      ghost var live, before, pool := alloc.Live(), alloc.engine.blocks, alloc.Pool();
      SplitInside(extents, live);
      LiveIsNotPool(alloc.owned, pool);
      var a := Resize(e, size);
      if a.Failure? {
        AllKept(extents, before, alloc.engine.blocks, content, pool);
        KeptSize(before, alloc.engine.blocks, pool);
        ExplainRefused(old(StateNow()), id, size, StateNow(), alloc.canGrow);
        return Fail(a.error);
      }
      ghost var after := alloc.engine.blocks;
      E.ReallocatedIsLive(before, after, live, alloc.Live(), pool, e, a.value, size);
      E.InFile(alloc, a.value, size);
      E.AfterReallocation(before, after, live, alloc.Live(), pool, e, a.value, size);
      Resettled(extents, live, alloc.Live(), before, after, content, pool, id, F.Extent(a.value, size));
      extents := extents[id := F.Extent(a.value, size)];
      content := content[id := after[a.value..a.value + size]];
      ExplainResized(old(StateNow()), id, size, StateNow(), alloc.canGrow, a.value);
      return Pass;
    }

    method Perform(op: Operation, step: nat) returns (ok: bool)
      requires Valid() && (forall k :: k in extents ==> k < step) && (op.Write? ==> |op.data| == alloc.engine.blockSize)
      requires Claim(op) !! alloc.owned
      modifies this, alloc, alloc.engine
      ensures Valid() && (forall k :: k in extents ==> k < step + 1) && alloc.canGrow == old(alloc.canGrow)
      ensures |alloc.engine.blocks| >= |old(alloc.engine.blocks)|
      ensures Explains(old(StateNow()), op, step, ok, StateNow(), alloc.canGrow)
    {
      hide Split, AllHold, A.Allocator.Valid, Range, A.OnlyNew;
      match op
      case AddRegion(block, n) =>
        var r := AddRegion(block, n);
        ok := r.Pass?;
      case Allocate(n) =>
        var r := Allocate(n, step);
        ok := r.Success?;
      case Reallocate(id, n) =>
        var r := Reallocate(id, n);
        ok := r.Pass?;
      case Free(id) => ok := Free(id);
      case Write(id, index, data) => ok := Write(id, index, data);
    }

    /**
    Any sequence of operations: each does what a collection of separate block sequences would, and at the
    end the managed blocks are accounted for. Since a run can end anywhere, that holds in every state.
    */
    method Execute(ops: seq<Operation>) returns (answers: seq<bool>, ghost trace: seq<State>)
      requires Valid() && extents == map[] && Claimable(ops, alloc.owned, |alloc.engine.blocks|)
      requires forall op :: op in ops && op.Write? ==> |op.data| == alloc.engine.blockSize
      modifies this, alloc, alloc.engine
      ensures Valid() && |answers| == |ops| && |trace| == |ops| + 1 && trace[0].contents == map[] && trace[|ops|] == StateNow()
      ensures forall i :: 0 <= i < |ops| ==> Explains(trace[i], ops[i], i, answers[i], trace[i + 1], alloc.canGrow)
      ensures Accounted()
    {
      hide Explains, Split, AllHold, A.Allocator.Valid, Claim, Accounted;
      NothingAllocated(extents, alloc.engine.blocks, content);
      answers, trace := [], [StateNow()];
      var i := 0;
      while i < |ops|
        invariant i <= |ops| && Valid() && (forall k :: k in extents ==> k < i) && alloc.canGrow == old(alloc.canGrow)
        invariant |alloc.engine.blocks| >= |old(alloc.engine.blocks)| && forall j :: i <= j < |ops| ==> Claim(ops[j]) !! alloc.owned
        invariant |answers| == i && |trace| == i + 1 && trace[0].contents == map[] && trace[i] == StateNow()
        invariant forall j :: 0 <= j < i ==> Explains(trace[j], ops[j], j, answers[j], trace[j + 1], alloc.canGrow)
      {
        var ok := Perform(ops[i], i);
        forall j | i < j < |ops| ensures Claim(ops[j]) !! alloc.owned {
          StillFree(trace[i], ops[i], i, ok, StateNow(), alloc.canGrow, Claim(ops[j]), |old(alloc.engine.blocks)|);
        }
        answers, trace := answers + [ok], trace + [StateNow()];
        i := i + 1;
      }
      Account();
    }

    /**
    Every managed block is in exactly one of five places: free, spare, a node of one of the two trees, or an
    allocation. The counters agree, and what is allocated is the sum of the sizes of the allocations.
    */
    ghost predicate Accounted()
      reads this, alloc
    {
      && alloc.owned == alloc.free + MetaPool.Elements(alloc.freelist) + alloc.byPosition.nodes + alloc.bySize.nodes + Covered(extents)
      && alloc.free !! MetaPool.Elements(alloc.freelist) !! alloc.byPosition.nodes !! alloc.bySize.nodes !! Covered(extents)
      && (forall j, k :: j in extents && k in extents && j != k ==> extents[j].Blocks() !! extents[k].Blocks())
      && alloc.metaTotal == alloc.metaFree + |alloc.byPosition.nodes| + |alloc.bySize.nodes|
      && alloc.dataTotal == alloc.dataFree + alloc.metaTotal + TotalSize(extents)
    }

    lemma Account()
      requires Valid()
      ensures Accounted()
    {
      hide MetaPool.Split, F.Canonical, Uniform, A.Placed, Range;
      alloc.Conservation();
      SplitCovers(extents, alloc.Live());
      SplitTotal(extents, alloc.Live());
    }
  }
}
