/**
A heap whose objects cannot be freed: two objects fill a page completely.
*/
module HeapFull {
  import opened Blocks
  import opened BigEndian
  import opened Pages
  import opened PageBytes
  import opened HeapState
  import opened Heaps
  import opened Wrappers

  /** The slots of a page whose only object is in slot 0. */
  lemma OneObject(b: Block, x: Content, n: nat)
    requires PageHolds(b, x) && x.objects.Keys == {0} && |x.objects[0]| == n
    ensures |x.page.slots| == 1 && LiveBytes(x.page.slots) == n && !HasFree(x.page.slots)
  {
    InUse(b, x);
    var slots := x.page.slots;
    assert |slots| - 1 in x.objects;
    assert slots[..0] == [];
  }

  lemma TwoObjects(b: Block, x: Content, m: nat, n: nat)
    requires PageHolds(b, x) && x.objects.Keys == {0, 1} && |x.objects[0]| == m && |x.objects[1]| == n
    ensures |x.page.slots| == 2 && LiveBytes(x.page.slots) == m + n && !HasFree(x.page.slots)
  {
    InUse(b, x);
    var slots := x.page.slots;
    assert 1 in x.objects && |slots| - 1 in x.objects;
    assert slots[..1][..0] == [] && slots[..1][0] == slots[0];
    assert LiveBytes(slots[..1]) == m;
  }

  /** Slots in use are those of objects, and the last slot is in use. */
  lemma InUse(b: Block, x: Content)
    requires PageHolds(b, x)
    ensures forall i :: i in x.objects <==> 0 <= i < |x.page.slots| && x.page.slots[i].Valid()
    ensures forall i :: i in x.objects ==> |x.objects[i]| == x.page.slots[i].size
    ensures |x.page.slots| > 0 ==> |x.page.slots| - 1 in x.objects
  {}

  /** The space on a page, from what is on it. */
  lemma Space(b: Block, x: Content)
    requires PageHolds(b, x)
    ensures Unfragmented(x.page) + x.page.fragmented == |b| - SlotToOffset(|x.page.slots|) - LiveBytes(x.page.slots)
  {}

  /** A page and what is on it, in a heap. */
  lemma PageAt(heap: Heap, c: nat)
    requires heap.Valid() && c in heap.pageMap && !heap.pageMap[c].large
    ensures c in heap.content && c < |heap.alloc.engine.blocks| && |heap.alloc.engine.blocks[c]| == heap.alloc.engine.blockSize
    ensures PageHolds(heap.alloc.engine.blocks[c], heap.content[c]) && |heap.content[c].page.slots| > 0
    ensures forall i :: i in heap.content[c].objects <==> Ref(false, c, i) in heap.objects
    ensures forall i :: i in heap.content[c].objects ==> heap.objects[Ref(false, c, i)] == heap.content[c].objects[i]
    ensures FreeOk(heap.freeMap, heap.pageMap, heap.content)
  {
    hide Structure, FreeOk, PageHolds, Heap.Owning, Heap.Noded, Heap.PagesListed, Heap.FreeListed;
    heap.SoundNow();
    PageOf(heap.alloc.engine.blocks, heap.alloc.engine.blockSize, heap.pageMap, heap.content, heap.home, c);
    heap.BlockSizeIs(c);
  }

  lemma LiveIsOnPage(heap: Heap, ref: Ref)
    requires heap.Valid() && ref in heap.objects
    ensures ref.block in heap.pageMap && heap.pageMap[ref.block].large == ref.large
  {
    hide Structure, FreeOk, Heap.Owning, Heap.Noded, Heap.PagesListed, Heap.FreeListed;
    heap.IsLive(ref);
  }

  /** With one object of 384 bytes, a page of 512 bytes has space for 100 more, and no other page has an entry. */
  lemma AfterFirst(heap: Heap, ref: Ref)
    requires heap.Valid() && heap.alloc.engine.blockSize == 512 && heap.objects.Keys == {ref} && ref.slot == 0 && !ref.large
    requires |heap.objects[ref]| == 384
    ensures IsLowerBound(heap.freeMap, 100, FreeEntry(100, ref.block))
  {
    hide Heap.Valid, PageHolds, LiveBytes, FreeOk;
    var c := ref.block;
    LiveIsOnPage(heap, ref);
    PageAt(heap, c);
    assert heap.content[c].objects.Keys == {0};
    OneObject(heap.alloc.engine.blocks[c], heap.content[c], 384);
    Space(heap.alloc.engine.blocks[c], heap.content[c]);
    EntryKnown(heap.freeMap, heap.pageMap, heap.content, c);
    forall f | f in heap.freeMap ensures f == FreeEntry(100, c) {
      EntryFound(heap.freeMap, heap.pageMap, heap.content, f);
      PageAt(heap, f.block);
      InUse(heap.alloc.engine.blocks[f.block], heap.content[f.block]);
      assert Ref(false, f.block, |heap.content[f.block].page.slots| - 1) in heap.objects;
    }
  }

  lemma AfterSecond(heap: Heap, first: Ref, second: Ref)
    requires heap.Valid() && heap.alloc.engine.blockSize == 512 && heap.objects.Keys == {first, second}
    requires first == Ref(false, first.block, 0) && second == Ref(false, first.block, 1)
    requires |heap.objects[first]| == 384 && |heap.objects[second]| == 100
    ensures first.block in heap.content && EffectiveFree(heap.content[first.block].page) == 0
  {
    hide Heap.Valid, PageHolds, LiveBytes, FreeOk;
    var c := first.block;
    LiveIsOnPage(heap, first);
    PageAt(heap, c);
    assert heap.content[c].objects.Keys == {0, 1};
    TwoObjects(heap.alloc.engine.blocks[c], heap.content[c], 384, 100);
    Space(heap.alloc.engine.blocks[c], heap.content[c]);
  }

  lemma SlotInEmpty(objects: map<Ref, seq<byte>>, ref: Ref)
    requires objects == map[] && LeastSlot(objects, ref)
    ensures ref.slot == 0
  {
    var q := Ref(false, ref.block, 0);
    assert ref.slot > 0 ==> q in objects;
  }

  lemma SlotAfter(objects: set<Ref>, ref: Ref)
    requires objects == {Ref(false, ref.block, 0)} && ref !in objects && !ref.large
    requires forall j :: 0 <= j < ref.slot ==> Ref(false, ref.block, j) in objects
    ensures ref.slot == 1
  {
    var q := Ref(false, ref.block, 1);
    assert ref.slot > 1 ==> q in objects;
  }

  /** Two objects in an empty heap with blocks of 512 bytes, of which the first cannot be freed any more. */
  method FillPage(heap: Heap) returns (first: Ref, second: Ref, outcome: Outcome<HeapError>)
    requires heap.Valid() && heap.objects == map[] && heap.alloc.canGrow && heap.alloc.engine.blockSize == 512
    modifies heap, heap.alloc, heap.alloc.engine
    ensures heap.Valid() && heap.objects.Keys == {first, second} && outcome == Fail(AssertionFailed)
  {
    hide Heap.Valid, Heap.Wreck, Heap.Mine, Heap.Sound, Heap.Indexed, Step, FullPages, Filled, EffectiveFree, LosesOnly;
    var r := heap.Allocate(None, 384);
    first := r.value;
    SlotInEmpty(old(heap.objects), first);
    assert heap.objects.Keys == {first};
    AfterFirst(heap, first);
    var q := heap.Allocate(None, 100);
    second := q.value;
    SlotAfter({first}, second);
    assert heap.objects.Keys == {first, second};
    AfterSecond(heap, first, second);
    outcome := heap.Free(Some(first));
  }
}
