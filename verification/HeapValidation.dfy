/**
The consistency check of the heap: it recounts objects, bytes and blocks from the pages.
*/
module HeapValidation {
  import opened Blocks
  import opened BigEndian
  import opened Pages
  import opened PageBytes
  import opened PageOps
  import opened Runs
  import opened HeapState
  import opened Heaps
  import opened Wrappers

  type ObjectMap = map<Ref, seq<byte>>

  /** The objects that are still to be counted: those of the blocks in `rest`, and of block `c` from slot `i` on. */
  ghost predicate Left(objects: ObjectMap, rest: set<nat>, c: nat, i: nat, left: ObjectMap) {
    && (forall r :: r in left ==> r in objects && left[r] == objects[r])
    && (forall r :: r in objects ==> (r in left <==> r.block in rest || (r.block == c && r.slot >= i)))
  }

  /** What was counted so far, and what is left, make up all objects. */
  ghost predicate Tally(objects: ObjectMap, left: ObjectMap, count: nat, size: nat) {
    count + |left| == |objects| && size + Weight(left) == Weight(objects)
  }

  lemma TallyOne(objects: ObjectMap, left: ObjectMap, count: nat, size: nat, r: Ref)
    requires Tally(objects, left, count, size) && r in left
    ensures Tally(objects, left - {r}, count + 1, size + |left[r]|)
  {
    WeightWithout(left, r);
    assert (left - {r}).Keys == left.Keys - {r};
  }

  lemma TallyDone(objects: ObjectMap, left: ObjectMap, count: nat, size: nat)
    requires Tally(objects, left, count, size) && left == map[]
    ensures count == |objects| && size == Weight(objects)
  {}

  lemma LeftTake(objects: ObjectMap, rest: set<nat>, c: nat, i: nat, left: ObjectMap, r: Ref)
    requires Left(objects, rest, c, i, left) && c !in rest && r in objects && r.block == c && r.slot == i
    requires forall q :: q in objects && q.block == c ==> q.large == r.large
    ensures r in left && Left(objects, rest, c, i + 1, left - {r})
  {}

  lemma LeftSkip(objects: ObjectMap, rest: set<nat>, c: nat, i: nat, left: ObjectMap)
    requires Left(objects, rest, c, i, left) && forall r :: r in objects ==> r.block != c || r.slot != i
    ensures Left(objects, rest, c, i + 1, left)
  {}

  /** The objects of the blocks in `rest` are still to be counted. */
  ghost predicate Rest(objects: ObjectMap, rest: set<nat>, left: ObjectMap) {
    && (forall r :: r in left ==> r in objects && left[r] == objects[r])
    && (forall r :: r in objects ==> (r in left <==> r.block in rest))
  }

  lemma StartPage(objects: ObjectMap, rest: set<nat>, left: ObjectMap, c: nat)
    requires Rest(objects, rest, left) && c in rest
    ensures Left(objects, rest - {c}, c, 0, left)
  {}

  lemma EndPage(objects: ObjectMap, rest: set<nat>, left: ObjectMap, c: nat, n: nat)
    requires Left(objects, rest, c, n, left) && forall r :: r in objects && r.block == c ==> r.slot < n
    ensures Rest(objects, rest, left)
  {}

  lemma RestStart(objects: ObjectMap, rest: set<nat>)
    requires forall r :: r in objects ==> r.block in rest
    ensures Rest(objects, rest, objects) && Tally(objects, objects, 0, 0)
  {}

  lemma RestDone(objects: ObjectMap, left: ObjectMap)
    requires Rest(objects, {}, left)
    ensures left == map[]
  {}

  // ---- Blocks.

  /** The blocks of the allocations in `rest`. */
  ghost predicate RestBlocks(home: map<nat, nat>, rest: set<nat>, blocks: set<nat>) {
    forall x :: x in blocks <==> x in home && home[x] in rest
  }

  lemma RangeOf(pageMap: map<nat, Entry>, home: map<nat, nat>, c: nat, x: nat)
    requires Homes(pageMap, home) && c in pageMap
    ensures c <= x < c + pageMap[c].count <==> x in home && home[x] == c
  {}

  lemma CountRange(pageMap: map<nat, Entry>, home: map<nat, nat>, rest: set<nat>, blocks: set<nat>, c: nat)
    requires Homes(pageMap, home) && c in pageMap && c in rest && RestBlocks(home, rest, blocks)
    ensures RestBlocks(home, rest - {c}, blocks - Range(c, c + pageMap[c].count))
    ensures Count(blocks) == Count(blocks - Range(c, c + pageMap[c].count)) + pageMap[c].count
  {
    hide Homes, Count;
    var own := Range(c, c + pageMap[c].count);
    forall x: nat ensures x in own <==> x in home && home[x] == c {
      RangeOf(pageMap, home, c, x);
    }
    RangeSize(c, c + pageMap[c].count);
    assert own <= blocks;
    CountMinus(blocks, own);
  }

  // ---- The check.

  lemma ObjectsAt(heap: Heap, c: nat)
    requires heap.Held() && Flattened(heap.objects, heap.pageMap, heap.content) && c in heap.pageMap
    ensures c in heap.content
    ensures forall i :: i in heap.content[c].objects ==> Ref(heap.pageMap[c].large, c, i) in heap.objects && heap.objects[Ref(heap.pageMap[c].large, c, i)] == heap.content[c].objects[i]
    ensures forall r :: r in heap.objects && r.block == c ==> r.large == heap.pageMap[c].large && r.slot in heap.content[c].objects
  {
    hide EntryOk, Homes;
  }

  /** Counts the objects of a page. */
  method CountPage(heap: Heap, c: nat, page: PageHandle, count0: nat, size0: nat, ghost rest: set<nat>, ghost left0: ObjectMap)
      returns (count: nat, size: nat, ghost left: ObjectMap)
    requires heap.Held() && Flattened(heap.objects, heap.pageMap, heap.content) && c in heap.pageMap && c in heap.content && !heap.pageMap[c].large
    requires page.Valid() && page.Contents() == heap.content[c].objects
    requires Left(heap.objects, rest, c, 0, left0) && c !in rest && Tally(heap.objects, left0, count0, size0)
    ensures Rest(heap.objects, rest, left) && Tally(heap.objects, left, count, size)
  {
    hide Left, Tally, Rest, Flattened, Shows, Ok, Placed, Objects, GetU32;
    ObjectsAt(heap, c);
    var n := SlotCount(page);
    count, size, left := count0, size0, left0;
    var i := 0;
    while i < n
      invariant i <= n && Left(heap.objects, rest, c, i, left) && Tally(heap.objects, left, count, size)
    {
      var s := FindObject(page, i);
      if s.Success? {
        ghost var r := Ref(false, c, i);
        LeftTake(heap.objects, rest, c, i, left, r);
        TallyOne(heap.objects, left, count, size, r);
        LeftValue(heap.objects, rest, c, i, left, r);
        count, size, left := count + 1, size + s.value.size, left - {r};
      } else {
        LeftSkip(heap.objects, rest, c, i, left);
      }
      i := i + 1;
    }
    SlotsBelow(page);
    EndPage(heap.objects, rest, left, c, n);
  }

  /** Counts the only object of a run. */
  method CountLarge(heap: Heap, c: nat, count0: nat, size0: nat, ghost rest: set<nat>, ghost left0: ObjectMap)
      returns (count: nat, size: nat, ghost left: ObjectMap)
    requires heap.Sound() && c in heap.pageMap && heap.pageMap[c].large
    requires Left(heap.objects, rest, c, 0, left0) && c !in rest && Tally(heap.objects, left0, count0, size0)
    ensures Rest(heap.objects, rest, left) && Tally(heap.objects, left, count, size)
  {
    hide Left, Tally, Rest, Flattened, LargeHolds, LargeBlocks, Structure, Heap.Owning, NoEmptyPages, Range;
    ghost var r := Ref(true, c, 0);
    ObjectsAt(heap, c);
    LargeOf(heap.alloc.engine.blocks, heap.alloc.engine.blockSize, heap.pageMap, heap.content, heap.home, c);
    var n := heap.Size(Some(Ref(true, c, 0)));
    LeftTake(heap.objects, rest, c, 0, left0, r);
    TallyOne(heap.objects, left0, count0, size0, r);
    LeftValue(heap.objects, rest, c, 0, left0, r);
    count, size, left := count0 + 1, size0 + n.value, left0 - {r};
    EndPage(heap.objects, rest, left, c, 1);
  }

  /** One step over the index of pages. */
  method CountOne(heap: Heap, c: nat, count0: nat, size0: nat, ghost rest: set<nat>, ghost left0: ObjectMap)
      returns (ok: bool, count: nat, size: nat, ghost left: ObjectMap)
    requires heap.Valid() && c in heap.pageMap && c in rest
    requires Rest(heap.objects, rest, left0) && Tally(heap.objects, left0, count0, size0)
    ensures c in heap.content && (ok <==> heap.pageMap[c].large || EffectiveFree(heap.content[c].page) > 0)
    ensures ok ==> Rest(heap.objects, rest - {c}, left) && Tally(heap.objects, left, count, size)
  {
    hide Left, Tally, Rest, Flattened, FreeOk, Structure, EffectiveFree, NoEmptyPages, PageHandle.Valid, PageHandle.Contents, Heap.Owning;
    heap.SameKeys();
    StartPage(heap.objects, rest, left0, c);
    ok := true;
    if heap.pageMap[c].large {
      count, size, left := CountLarge(heap, c, count0, size0, rest - {c}, left0);
      return;
    }
    var page := heap.ReadPage(c);
    var available := page.EffectiveFreeBytes();
    EntryKnown(heap.freeMap, heap.pageMap, heap.content, c);
    if FreeEntry(available, c) !in heap.freeMap {
      return false, count0, size0, left0;
    }
    count, size, left := CountPage(heap, c, page, count0, size0, rest - {c}, left0);
  }

  /** Every entry of the free map names a page with that much space. */
  method CheckFreeMap(heap: Heap) returns (ok: bool)
    requires heap.Valid()
    ensures ok
  {
    hide Flattened, FreeOk, Structure, EffectiveFree, NoEmptyPages, PageHandle.Valid, PageHandle.Contents, Heap.Owning;
    var rest := heap.freeMap;
    while rest != {}
      invariant rest <= heap.freeMap && heap.Valid()
      decreases rest
    {
      var f :| f in rest;
      EntryFound(heap.freeMap, heap.pageMap, heap.content, f);
      if f.block !in heap.pageMap || heap.pageMap[f.block].large {
        return false;
      }
      var page := heap.ReadPage(f.block);
      var available := page.EffectiveFreeBytes();
      if available != f.available {
        return false;
      }
      rest := rest - {f};
    }
    return true;
  }

  lemma Begin(heap: Heap)
    requires heap.Valid()
    ensures Rest(heap.objects, heap.pageMap.Keys, heap.objects) && Tally(heap.objects, heap.objects, 0, 0)
    ensures RestBlocks(heap.home, heap.pageMap.Keys, heap.home.Keys) && Count(heap.home.Keys) == heap.blocksCount
  {
    hide EntryOk, FreeOk, NoEmptyPages, Count, Flattened, Structure, Homes, Rest, RestBlocks, Tally, Weight,
         Heap.Intact, Heap.Sound, Heap.Owning, Heap.Held, Heap.Listed, Heap.PagesListed, Heap.FreeListed, Heap.Noded;
    heap.Unpack();
    heap.OwnedParts();
    HomesOf(heap);
    ObjectsOnPages(heap.objects, heap.pageMap, heap.content);
    RestStart(heap.objects, heap.pageMap.Keys);
    BlocksOfPages(heap.pageMap, heap.home);
  }

  lemma ObjectsOnPages(objects: ObjectMap, pageMap: map<nat, Entry>, content: map<nat, Content>)
    requires Flattened(objects, pageMap, content)
    ensures forall r :: r in objects ==> r.block in pageMap.Keys
  {}

  lemma BlocksOfPages(pageMap: map<nat, Entry>, home: map<nat, nat>)
    requires Homes(pageMap, home)
    ensures RestBlocks(home, pageMap.Keys, home.Keys)
  {}

  lemma HomesOf(heap: Heap)
    requires heap.Held()
    ensures Homes(heap.pageMap, heap.home)
  {}

  lemma NoBlocksLeft(home: map<nat, nat>, blocks: set<nat>)
    requires RestBlocks(home, {}, blocks)
    ensures Count(blocks) == 0
  {}

  /**
  The check accepts a heap exactly if each of its pages has effective free space. A page without
  any has no entry in the free map, which the check insists on.
  */
  method Validate(heap: Heap) returns (ok: bool)
    requires heap.Valid()
    ensures ok <==> forall c :: c in heap.pageMap && !heap.pageMap[c].large ==> c in heap.content && EffectiveFree(heap.content[c].page) > 0
  {
    hide Left, Tally, Rest, RestBlocks, Flattened, FreeOk, Structure, Weight, EffectiveFree, NoEmptyPages, Count, Homes;
    var rest, count, size, blocks := heap.pageMap.Keys, 0, 0, 0;
    ghost var left, own := heap.objects, heap.home.Keys;
    Begin(heap);
    while rest != {}
      invariant rest <= heap.pageMap.Keys && heap.Valid()
      invariant Rest(heap.objects, rest, left) && Tally(heap.objects, left, count, size)
      invariant RestBlocks(heap.home, rest, own) && blocks + Count(own) == heap.blocksCount
      invariant forall c :: c in heap.pageMap && c !in rest && !heap.pageMap[c].large ==> c in heap.content && EffectiveFree(heap.content[c].page) > 0
      decreases rest
    {
      var c :| c in rest;
      ok, count, size, left := CountOne(heap, c, count, size, rest, left);
      if !ok {
        return false;
      }
      HomesOf(heap);
      CountRange(heap.pageMap, heap.home, rest, own, c);
      blocks := blocks + heap.pageMap[c].count;
      own := own - Range(c, c + heap.pageMap[c].count);
      rest := rest - {c};
    }
    RestDone(heap.objects, left);
    TallyDone(heap.objects, left, count, size);
    NoBlocksLeft(heap.home, own);
    ok := CheckFreeMap(heap);
    ok := ok && blocks == heap.blocksCount && count == heap.objectsCount && size == heap.objectsSize;
  }

  lemma LeftValue(objects: ObjectMap, rest: set<nat>, c: nat, i: nat, left: ObjectMap, r: Ref)
    requires Left(objects, rest, c, i, left) && r in left
    ensures r in objects && left[r] == objects[r]
  {}

  lemma SlotsBelow(page: PageHandle)
    requires page.Valid()
    ensures forall i :: i in page.Contents() ==> i < |page.page.slots|
  {}
}
