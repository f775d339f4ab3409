/**
A slotted page as the bytes of a block, and the handle that changes it in place.
*/
module PageBytes {
  import opened Blocks
  import opened BigEndian
  import opened Pages
  import opened Wrappers

  /** The slot with index `i`, as stored behind the header. */
  function SlotAt(b: Block, i: nat): Slot
    requires SlotToOffset(i + 1) <= |b|
  {
    Slot(GetU32(b, SlotToOffset(i)), GetU32(b, SlotToOffset(i) + 4))
  }

  /** The block starts with the header and the slots of the page. */
  ghost predicate Shows(b: Block, p: Page) {
    && SlotToOffset(|p.slots|) <= |b|
    && GetU32(b, 0) == |p.slots| && GetU32(b, 4) == p.freePtr && GetU32(b, 8) == p.fragmented
    && forall i :: 0 <= i < |p.slots| ==> SlotAt(b, i) == p.slots[i]
  }

  /** The bytes of a page: 4 for each number of the header, then 4 for the offset and 4 for the size of each slot. */
  lemma ShowsIs(b: Block, p: Page)
    requires 12 + 8 * |p.slots| <= |b| < U32_END && p.freePtr < U32_END && p.fragmented < U32_END
    requires forall i :: 0 <= i < |p.slots| ==> p.slots[i].offset < U32_END && p.slots[i].size < U32_END
    ensures Shows(b, p) <==>
            && Digits(b[0..4], |p.slots|) && Digits(b[4..8], p.freePtr) && Digits(b[8..12], p.fragmented)
            && forall i :: 0 <= i < |p.slots| ==> Digits(b[12 + 8 * i..16 + 8 * i], p.slots[i].offset) && Digits(b[16 + 8 * i..20 + 8 * i], p.slots[i].size)
  {
    hide Decode, Digits, Pow256;
    Pow256Of4();
    DigitsAre(b[0..4], |p.slots|);
    DigitsAre(b[4..8], p.freePtr);
    DigitsAre(b[8..12], p.fragmented);
    forall i | 0 <= i < |p.slots|
      ensures SlotAt(b, i) == p.slots[i] <==> Digits(b[12 + 8 * i..16 + 8 * i], p.slots[i].offset) && Digits(b[16 + 8 * i..20 + 8 * i], p.slots[i].size)
    {
      DigitsAre(b[12 + 8 * i..16 + 8 * i], p.slots[i].offset);
      DigitsAre(b[16 + 8 * i..20 + 8 * i], p.slots[i].size);
    }
  }

  function WithHeader(b: Block, count: nat, freePtr: nat, fragmented: nat): (r: Block)
    requires HEADER_SIZE <= |b| && count < U32_END && freePtr < U32_END && fragmented < U32_END
    ensures |r| == |b|
  {
    PutU32(PutU32(PutU32(b, 0, count), 4, freePtr), 8, fragmented)
  }

  function WithSlot(b: Block, i: nat, s: Slot): (r: Block)
    requires SlotToOffset(i + 1) <= |b| && s.offset < U32_END && s.size < U32_END
    ensures |r| == |b|
  {
    PutU32(PutU32(b, SlotToOffset(i), s.offset), SlotToOffset(i) + 4, s.size)
  }

  lemma HeaderValues(b: Block, count: nat, freePtr: nat, fragmented: nat)
    requires HEADER_SIZE <= |b| && count < U32_END && freePtr < U32_END && fragmented < U32_END
    ensures var r := WithHeader(b, count, freePtr, fragmented);
            GetU32(r, 0) == count && GetU32(r, 4) == freePtr && GetU32(r, 8) == fragmented
    ensures forall i :: HEADER_SIZE <= i < |b| ==> WithHeader(b, count, freePtr, fragmented)[i] == b[i]
  {
    hide PutU32, GetU32;
    var b1 := PutU32(b, 0, count);
    var b2 := PutU32(b1, 4, freePtr);
    GetAfterPut(b, 0, count, 0);
    GetAfterPut(b1, 4, freePtr, 0);
    GetAfterPut(b2, 8, fragmented, 0);
    GetAfterPut(b2, 8, fragmented, 4);
  }

  lemma HeaderKeepsValue(b: Block, count: nat, freePtr: nat, fragmented: nat, p: nat)
    requires count < U32_END && freePtr < U32_END && fragmented < U32_END && HEADER_SIZE <= p && p + 4 <= |b|
    ensures GetU32(WithHeader(b, count, freePtr, fragmented), p) == GetU32(b, p)
  {
    hide PutU32, GetU32;
    var b1 := PutU32(b, 0, count);
    var b2 := PutU32(b1, 4, freePtr);
    GetAfterPut(b, 0, count, p);
    GetAfterPut(b1, 4, freePtr, p);
    GetAfterPut(b2, 8, fragmented, p);
  }

  lemma SlotValues(b: Block, i: nat, s: Slot)
    requires SlotToOffset(i + 1) <= |b| && s.offset < U32_END && s.size < U32_END
    ensures SlotAt(WithSlot(b, i, s), i) == s
    ensures forall k :: 0 <= k < |b| && !(SlotToOffset(i) <= k < SlotToOffset(i + 1)) ==> WithSlot(b, i, s)[k] == b[k]
  {
    hide PutU32, GetU32;
    var b1 := PutU32(b, SlotToOffset(i), s.offset);
    GetAfterPut(b, SlotToOffset(i), s.offset, SlotToOffset(i));
    GetAfterPut(b1, SlotToOffset(i) + 4, s.size, SlotToOffset(i));
  }

  lemma SlotKeepsValue(b: Block, i: nat, s: Slot, p: nat)
    requires SlotToOffset(i + 1) <= |b| && s.offset < U32_END && s.size < U32_END && p + 4 <= |b|
    requires p + 4 <= SlotToOffset(i) || SlotToOffset(i + 1) <= p
    ensures GetU32(WithSlot(b, i, s), p) == GetU32(b, p)
  {
    hide PutU32, GetU32;
    var b1 := PutU32(b, SlotToOffset(i), s.offset);
    GetAfterPut(b, SlotToOffset(i), s.offset, p);
    GetAfterPut(b1, SlotToOffset(i) + 4, s.size, p);
  }

  /** Writing the header shows the new header over the same slots, or over fewer of them. */
  lemma ShowsHeader(b: Block, p: Page, count: nat, freePtr: nat, fragmented: nat)
    requires Shows(b, p) && count <= |p.slots| && |b| < U32_END && freePtr < U32_END && fragmented < U32_END
    ensures Shows(WithHeader(b, count, freePtr, fragmented), Page(p.slots[..count], freePtr, fragmented))
  {
    hide WithHeader, GetU32;
    HeaderValues(b, count, freePtr, fragmented);
    forall i | 0 <= i < count ensures SlotAt(WithHeader(b, count, freePtr, fragmented), i) == p.slots[i] {
      HeaderKeepsValue(b, count, freePtr, fragmented, SlotToOffset(i));
      HeaderKeepsValue(b, count, freePtr, fragmented, SlotToOffset(i) + 4);
    }
  }

  /** Writing a slot changes that slot and nothing else. */
  lemma ShowsSlot(b: Block, p: Page, i: nat, s: Slot)
    requires Shows(b, p) && i < |p.slots| && s.offset < U32_END && s.size < U32_END
    ensures Shows(WithSlot(b, i, s), p.(slots := p.slots[i := s]))
  {
    hide WithSlot, GetU32;
    SlotValues(b, i, s);
    SlotKeepsValue(b, i, s, 0);
    SlotKeepsValue(b, i, s, 4);
    SlotKeepsValue(b, i, s, 8);
    forall j | 0 <= j < |p.slots| ensures SlotAt(WithSlot(b, i, s), j) == p.slots[i := s][j] {
      if j != i {
        SlotKeepsValue(b, i, s, SlotToOffset(j));
        SlotKeepsValue(b, i, s, SlotToOffset(j) + 4);
      }
    }
  }

  /** Writing the slot behind the last one and then a header that counts it. */
  lemma ShowsNewSlot(b: Block, p: Page, s: Slot)
    requires Shows(b, p) && SlotToOffset(|p.slots| + 1) <= |b| < U32_END && s.offset < U32_END && s.size < U32_END
    ensures Shows(WithHeader(WithSlot(b, |p.slots|, s), |p.slots| + 1, p.freePtr, p.fragmented), p.(slots := p.slots + [s]))
  {
    hide WithSlot, WithHeader, GetU32;
    var n := |p.slots|;
    var b1 := WithSlot(b, n, s);
    var b2 := WithHeader(b1, n + 1, p.freePtr, p.fragmented);
    SlotValues(b, n, s);
    HeaderValues(b1, n + 1, p.freePtr, p.fragmented);
    forall j | 0 <= j < n + 1 ensures SlotAt(b2, j) == (p.slots + [s])[j] {
      HeaderKeepsValue(b1, n + 1, p.freePtr, p.fragmented, SlotToOffset(j));
      HeaderKeepsValue(b1, n + 1, p.freePtr, p.fragmented, SlotToOffset(j) + 4);
      if j < n {
        SlotKeepsValue(b, n, s, SlotToOffset(j));
        SlotKeepsValue(b, n, s, SlotToOffset(j) + 4);
      }
    }
  }

  /** Bytes above the slots are all that objects depend on. */
  ghost predicate SameAbove(b: Block, b': Block, lo: nat) {
    |b| == |b'| && forall i :: lo <= i < |b| ==> b'[i] == b[i]
  }

  lemma ObjectsSame(b: Block, b': Block, slots: seq<Slot>, lo: nat)
    requires Placed(slots, lo, |b|) && Placed(slots, 0, |b|) && SameAbove(b, b', lo)
    ensures Objects(b', slots) == Objects(b, slots)
  {
    forall i | i in Objects(b, slots) ensures Objects(b', slots)[i] == Objects(b, slots)[i] {
      assert b'[slots[i].offset..slots[i].End()] == b[slots[i].offset..slots[i].End()];
    }
  }

  class PageHandle {
    var block: Block
    ghost var page: Page

    ghost predicate Valid()
      reads this
    {
      && |block| < U32_END && Shows(block, page)
      && Ok(page, |block|) && Placed(page.slots, 0, |block|)
    }

    ghost function Contents(): map<nat, seq<byte>>
      requires Valid()
      reads this
    {
      Objects(block, page.slots)
    }

    constructor (block: Block, ghost page: Page)
      requires |block| < U32_END && Shows(block, page) && Ok(page, |block|)
      ensures Valid() && this.block == block && this.page == page
    {
      PlacedWider(page.slots, page.freePtr, |block|, 0, |block|);
      this.block, this.page := block, page;
    }

    /** The index of the first slot that is not in use. */
    method FindFreeSlot() returns (r: Option<nat>)
      requires Valid()
      ensures r.None? ==> !HasFree(page.slots)
      ensures r.Some? ==> r.value < |page.slots| && !page.slots[r.value].Valid()
      ensures r.Some? ==> forall i :: 0 <= i < r.value ==> page.slots[i].Valid()
    {
      hide Ok, Placed;
      var count := GetU32(block, 0);
      var i := 0;
      while i < count
        invariant i <= count && forall j :: 0 <= j < i ==> page.slots[j].Valid()
      {
        assert SlotAt(block, i) == page.slots[i];
        if !SlotAt(block, i).Valid() {
          return Some(i);
        }
        i := i + 1;
      }
      return None;
    }

    method UnfragmentedFreeBytes() returns (n: nat)
      requires Valid()
      ensures n == Unfragmented(page)
    {
      hide Placed;
      n := GetU32(block, 4) - SlotToOffset(GetU32(block, 0));
    }

    method EffectiveFreeBytes() returns (n: nat)
      requires Valid()
      ensures n == EffectiveFree(page)
    {
      hide Placed;
      var free := UnfragmentedFreeBytes();
      free := free + GetU32(block, 8);
      var slot := FindFreeSlot();
      if slot.Some? {
        return free;
      }
      return if free > SLOT_SIZE then free - SLOT_SIZE else 0;
    }
  }
}
