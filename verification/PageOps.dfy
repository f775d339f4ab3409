/**
Allocating and freeing objects on a page.
*/
module PageOps {
  import opened Blocks
  import opened BigEndian
  import opened Pages
  import opened PageBytes
  import opened Compaction
  import opened Wrappers

  datatype Error = InvalidObject

  lemma ObjectsWithout(b: Block, slots: seq<Slot>, slots': seq<Slot>, i: nat)
    requires Placed(slots, 0, |b|) && Placed(slots', 0, |b|) && |slots'| <= |slots|
    requires forall k :: 0 <= k < |slots'| && k != i ==> slots'[k] == slots[k]
    requires forall k :: |slots'| <= k < |slots| && k != i ==> !slots[k].Valid()
    requires i < |slots'| ==> !slots'[i].Valid()
    ensures Objects(b, slots') == Objects(b, slots) - {i}
  {}

  /** Removing a slot removes its object. */
  lemma FreedObjects(b: Block, p: Page, i: nat)
    requires i < |p.slots| && Placed(p.slots, 0, |b|) && Placed(Freed(p, i).slots, 0, |b|)
    ensures Objects(b, Freed(p, i).slots) == Objects(b, p.slots) - {i}
  {
    hide Placed, LiveBytes, Trim, Objects;
    var slots := p.slots[i := NO_SLOT];
    TrimKeeps(slots);
    var r := Trim(slots);
    assert r == slots[..|r|];
    assert forall k :: 0 <= k < |p.slots| && k != i ==> slots[k] == p.slots[k];
    ObjectsWithout(b, p.slots, r, i);
  }

  /** A new object does not disturb the others. */
  lemma AllocatedObjects(b: Block, p: Page, i: nat, size: nat)
    requires i <= |p.slots| && (i < |p.slots| ==> !p.slots[i].Valid()) && 0 < size < p.freePtr
    requires Placed(p.slots, 0, |b|) && Placed(Allocated(p, i, size).slots, 0, |b|)
    ensures var m, m' := Objects(b, p.slots), Objects(b, Allocated(p, i, size).slots);
            i !in m && m'.Keys == m.Keys + {i} && (forall k :: k in m ==> m'[k] == m[k]) && |m'[i]| == size
  {}

  /** Drops the slots at the end that are not in use. */
  method ReclaimSlots(page: PageHandle)
    requires Shows(page.block, page.page) && |page.block| < U32_END
    modifies page
    ensures page.page == old(page.page).(slots := Trim(old(page.page).slots)) && Shows(page.block, page.page)
    ensures SameAbove(old(page.block), page.block, HEADER_SIZE)
  {
    hide GetU32, WithHeader, LiveBytes;
    ghost var p := page.page;
    var count := GetU32(page.block, 0);
    var size := count;
    assert p.slots[..size] == p.slots;
    while size > 0 && !SlotAt(page.block, size - 1).Valid()
      invariant 0 <= size <= count && Trim(p.slots[..size]) == Trim(p.slots)
    {
      assert p.slots[..size][..size - 1] == p.slots[..size - 1];
      size := size - 1;
    }
    assert Trim(p.slots[..size]) == p.slots[..size];
    if size != count {
      var freePtr, fragmented := GetU32(page.block, 4), GetU32(page.block, 8);
      ShowsHeader(page.block, p, size, freePtr, fragmented);
      HeaderValues(page.block, size, freePtr, fragmented);
      page.block := WithHeader(page.block, size, freePtr, fragmented);
    }
    page.page := p.(slots := Trim(p.slots));
  }

  /** Frees an object. A slot that is not in use is rejected. */
  method PageFree(page: PageHandle, i: nat) returns (r: Outcome<Error>)
    requires page.Valid()
    modifies page
    ensures page.Valid() && |page.block| == |old(page.block)|
    ensures r.Pass? <==> i in old(page.Contents())
    ensures r.Pass? ==> page.Contents() == old(page.Contents()) - {i} && page.page == Freed(old(page.page), i)
    ensures r.Pass? ==> EffectiveFree(page.page) > 0
    ensures r.Fail? ==> unchanged(page)
  {
    hide GetU32, WithHeader, WithSlot, Placed, LiveBytes, Trim, EffectiveFree, Cleared;
    ghost var p, b0 := page.page, page.block;
    var count := GetU32(page.block, 0);
    if i >= count {
      return Fail(InvalidObject);
    }
    var s := SlotAt(page.block, i);
    if !s.Valid() {
      return Fail(InvalidObject);
    }
    FreedOk(p, |b0|, i);
    FreedHasSpace(p, |b0|, i);
    PlacedWider(Freed(p, i).slots, Freed(p, i).freePtr, |b0|, 0, |b0|);
    FreedObjects(b0, p, i);
    EraseSlot(page, i, s);
    ReclaimSlots(page);
    ObjectsSame(b0, page.block, page.page.slots, page.page.freePtr);
    return Pass;
  }

  /** Writes the header and the empty slot of an object that is freed. */
  method EraseSlot(page: PageHandle, i: nat, s: Slot)
    requires page.Valid() && i < |page.page.slots| && page.page.slots[i] == s && s.Valid()
    modifies page
    ensures |page.block| == |old(page.block)| && Shows(page.block, page.page)
    ensures page.page == Page(old(page.page).slots[i := NO_SLOT],
                              if s.offset == old(page.page).freePtr then s.End() else old(page.page).freePtr,
                              if s.offset == old(page.page).freePtr then old(page.page).fragmented else old(page.page).fragmented + s.size)
    ensures SameAbove(old(page.block), page.block, SlotToOffset(|old(page.page).slots|))
  {
    hide GetU32, WithHeader, WithSlot, LiveBytes;
    ghost var p := page.page;
    LiveBytesUpdate(p.slots, i, NO_SLOT);
    var count, freePtr, fragmented := GetU32(page.block, 0), GetU32(page.block, 4), GetU32(page.block, 8);
    if s.offset == freePtr {
      freePtr := freePtr + s.size;
    } else {
      fragmented := fragmented + s.size;
    }
    ShowsHeader(page.block, p, count, freePtr, fragmented);
    HeaderValues(page.block, count, freePtr, fragmented);
    assert p.slots[..count] == p.slots;
    page.block := WithHeader(page.block, count, freePtr, fragmented);
    ShowsSlot(page.block, Page(p.slots, freePtr, fragmented), i, NO_SLOT);
    SlotValues(page.block, i, NO_SLOT);
    page.block := WithSlot(page.block, i, NO_SLOT);
    page.page := Page(p.slots[i := NO_SLOT], freePtr, fragmented);
  }

  /** Appends an empty slot at the end of the slot array. */
  method AppendSlot(page: PageHandle)
    requires Shows(page.block, page.page) && SlotToOffset(|page.page.slots| + 1) <= |page.block| < U32_END
    modifies page
    ensures |page.block| == |old(page.block)| && Shows(page.block, page.page)
    ensures page.page == old(page.page).(slots := old(page.page).slots + [NO_SLOT])
    ensures SameAbove(old(page.block), page.block, SlotToOffset(|page.page.slots|))
  {
    hide GetU32, WithHeader, WithSlot;
    ghost var p := page.page;
    var count, freePtr, fragmented := GetU32(page.block, 0), GetU32(page.block, 4), GetU32(page.block, 8);
    ShowsNewSlot(page.block, p, NO_SLOT);
    SlotValues(page.block, count, NO_SLOT);
    HeaderValues(WithSlot(page.block, count, NO_SLOT), count + 1, freePtr, fragmented);
    page.block := WithHeader(WithSlot(page.block, count, NO_SLOT), count + 1, freePtr, fragmented);
    page.page := p.(slots := p.slots + [NO_SLOT]);
  }

  /** Lowers the free pointer and points the slot at the space this yields. */
  method FillSlot(page: PageHandle, i: nat, size: nat)
    requires Shows(page.block, page.page) && |page.block| < U32_END && i < |page.page.slots|
    requires 0 < size < page.page.freePtr <= |page.block|
    modifies page
    ensures |page.block| == |old(page.block)| && Shows(page.block, page.page)
    ensures page.page == Allocated(old(page.page), i, size)
    ensures SameAbove(old(page.block), page.block, SlotToOffset(|page.page.slots|))
  {
    hide GetU32, WithHeader, WithSlot;
    ghost var p := page.page;
    var count, freePtr, fragmented := GetU32(page.block, 0), GetU32(page.block, 4), GetU32(page.block, 8);
    ShowsHeader(page.block, p, count, freePtr - size, fragmented);
    HeaderValues(page.block, count, freePtr - size, fragmented);
    assert p.slots[..count] == p.slots;
    page.block := WithHeader(page.block, count, freePtr - size, fragmented);
    ShowsSlot(page.block, Page(p.slots, freePtr - size, fragmented), i, Slot(freePtr - size, size));
    SlotValues(page.block, i, Slot(freePtr - size, size));
    page.block := WithSlot(page.block, i, Slot(freePtr - size, size));
    page.page := Allocated(p, i, size);
  }

  /** Allocates below the free pointer; there is enough contiguous space. */
  method TakeSlot(page: PageHandle, existing: Option<nat>, size: nat) returns (i: nat)
    requires page.Valid() && size > 0
    requires existing.Some? ==> existing.value < |page.page.slots| && !page.page.slots[existing.value].Valid()
    requires size + (if existing.Some? then 0 else SLOT_SIZE) <= Unfragmented(page.page)
    modifies page
    ensures page.Valid() && |page.block| == |old(page.block)|
    ensures i == if existing.Some? then existing.value else |old(page.page).slots|
    ensures page.page == Allocated(old(page.page), i, size)
    ensures i !in old(page.Contents()) && page.Contents().Keys == old(page.Contents()).Keys + {i}
    ensures forall k :: k in old(page.Contents()) ==> page.Contents()[k] == old(page.Contents())[k]
    ensures |page.Contents()[i]| == size
  {
    hide GetU32, Placed, LiveBytes, Objects, Cleared, Shows;
    ghost var p, b0 := page.page, page.block;
    i := GetU32(page.block, 0);
    ShowsCount(b0, p);
    if existing.Some? {
      i := existing.value;
    } else {
      AppendSlot(page);
    }
    FillSlot(page, i, size);
    ghost var q := Allocated(p, i, size);
    assert page.page == q;
    AllocatedOk(p, |b0|, i, size);
    PlacedWider(q.slots, q.freePtr, |b0|, 0, |b0|);
    ObjectsSame(b0, page.block, q.slots, q.freePtr);
    AllocatedObjects(b0, p, i, size);
  }

  /** Enough effective space is enough after compaction. */
  lemma EnoughSpace(p: Page, q: Page, bs: nat, size: nat)
    requires Ok(p, bs) && size > 0 && EffectiveFree(p) >= size
    requires |q.slots| == |p.slots| && q.freePtr == bs - LiveBytes(p.slots)
    ensures size + (if HasFree(p.slots) then 0 else SLOT_SIZE) <= Unfragmented(q)
  {}

  /**
  Allocates an object on a page with enough effective space, compacting it if need be. The first
  slot that is not in use is taken. All other objects keep their slots and bytes.
  */
  method PageAllocate(page: PageHandle, size: nat) returns (i: nat)
    requires page.Valid() && size > 0 && EffectiveFree(page.page) >= size
    modifies page
    ensures page.Valid() && |page.block| == |old(page.block)|
    ensures i !in old(page.Contents()) && page.Contents().Keys == old(page.Contents()).Keys + {i}
    ensures forall k :: k in old(page.Contents()) ==> page.Contents()[k] == old(page.Contents())[k]
    ensures |page.Contents()[i]| == size
    ensures i <= |old(page.page).slots| && forall j :: 0 <= j < i ==> old(page.page).slots[j].Valid()
    ensures EffectiveFree(page.page) < EffectiveFree(old(page.page))
    ensures i < |page.page.slots| && SameShape(Freed(page.page, i).slots, old(page.page).slots)
    ensures var p := old(page.page); p.freePtr >= 12 + 8 * |p.slots|
    ensures var p := old(page.page);
            if size + (if HasFree(p.slots) then 0 else 8) <= p.freePtr - (12 + 8 * |p.slots|) then page.page == Allocated(p, i, size)
            else page.page.fragmented == 0
  {
    hide GetU32, Placed, LiveBytes, Objects, Cleared, Shows;
    ghost var p := page.page;
    var existing := page.FindFreeSlot();
    var required := size + if existing.Some? then 0 else SLOT_SIZE;
    var unfragmented := page.UnfragmentedFreeBytes();
    if required > unfragmented {
      PageCompact(page);
      EnoughSpace(p, page.page, |page.block|, size);
    }
    ghost var q := page.page;
    EffectiveFreeOfShape(p, q, |page.block|);
    assert existing.Some? ==> HasFree(p.slots) && HasFree(q.slots);
    i := TakeSlot(page, existing, size);
    AllocatedHasLess(q, |page.block|, i, size);
    FreeUndoesAllocate(q, |page.block|, i, size);
  }

  /** Overwriting one object leaves the others alone. */
  lemma ObjectWritten(b: Block, slots: seq<Slot>, i: nat, data: seq<byte>)
    requires Placed(slots, 0, |b|) && i < |slots| && slots[i].Valid() && |data| == slots[i].size && slots[i].End() <= |b|
    ensures Objects(Splice(b, slots[i].offset, data), slots) == Objects(b, slots)[i := data]
  {
    var b' := Splice(b, slots[i].offset, data);
    var m, m' := Objects(b, slots), Objects(b', slots);
    forall k | k in m ensures m'[k] == m[i := data][k] {
      if k != i {
        assert if i < k then Apart(slots[i], slots[k]) else Apart(slots[k], slots[i]);
        assert b'[slots[k].offset..slots[k].End()] == b[slots[k].offset..slots[k].End()];
      } else {
        assert b'[slots[i].offset..slots[i].End()] == data;
      }
    }
  }

  /** Copies bytes over an object. */
  method WriteObject(page: PageHandle, i: nat, data: seq<byte>)
    requires page.Valid() && i in page.Contents() && |data| == |page.Contents()[i]|
    modifies page
    ensures page.Valid() && |page.block| == |old(page.block)| && page.page == old(page.page)
    ensures page.Contents() == old(page.Contents())[i := data]
  {
    hide GetU32, LiveBytes, Cleared, Apart;
    ghost var p, b0 := page.page, page.block;
    assert SlotAt(page.block, i) == p.slots[i];
    var offset := SlotAt(page.block, i).offset;
    page.block := Splice(page.block, offset, data);
    ShowsBelow(b0, page.block, p);
    ObjectWritten(b0, p.slots, i, data);
  }

  /** An empty page. */
  method InitPage(blockSize: nat) returns (page: PageHandle)
    requires HEADER_SIZE <= blockSize < U32_END
    ensures fresh(page) && page.Valid() && |page.block| == blockSize && page.page == Page([], blockSize, 0)
    ensures page.Contents() == map[]
  {
    hide GetU32, WithHeader;
    HeaderValues(Zeros(blockSize), 0, blockSize, 0);
    page := new PageHandle(WithHeader(Zeros(blockSize), 0, blockSize, 0), Page([], blockSize, 0));
  }

  datatype LookupError = NoSuchSlot | UnusedSlot

  /** Finds the bytes of an object. */
  method FindObject(page: PageHandle, i: nat) returns (r: Result<Slot, LookupError>)
    requires page.Valid()
    ensures r.Success? <==> i in page.Contents()
    ensures r == Failure(NoSuchSlot) <==> i >= |page.page.slots|
    ensures r.Success? ==> r.value.offset <= r.value.End() <= |page.block|
    ensures r.Success? ==> page.block[r.value.offset..r.value.End()] == page.Contents()[i]
  {
    hide GetU32, LiveBytes, Cleared, Apart;
    if i >= GetU32(page.block, 0) {
      return Failure(NoSuchSlot);
    }
    assert SlotAt(page.block, i) == page.page.slots[i];
    var s := SlotAt(page.block, i);
    return if s.Valid() then Success(s) else Failure(UnusedSlot);
  }
}
