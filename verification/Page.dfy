/**
The layout of a slotted page: a header and an array of slots grow from the left, objects from the right.
*/
module Pages {
  import opened Blocks
  import opened Wrappers

  const HEADER_SIZE: nat := 12
  const SLOT_SIZE: nat := 8

  /** Where an object lies in its page. Offset 0 marks a slot that is not in use. */
  datatype Slot = Slot(offset: nat, size: nat) {
    predicate Valid() {
      offset != 0
    }

    function End(): nat {
      offset + size
    }
  }

  const NO_SLOT := Slot(0, 0)

  datatype Page = Page(slots: seq<Slot>, freePtr: nat, fragmented: nat)

  function SlotToOffset(i: nat): nat {
    HEADER_SIZE + SLOT_SIZE * i
  }

  /** The bytes of all objects of a page. */
  ghost function LiveBytes(slots: seq<Slot>): nat {
    if slots == [] then 0
    else
      var s := slots[|slots| - 1];
      LiveBytes(slots[..|slots| - 1]) + if s.Valid() then s.size else 0
  }

  ghost predicate Apart(a: Slot, b: Slot) {
    a.End() <= b.offset || b.End() <= a.offset
  }

  /** Objects lie above the free pointer and do not overlap. */
  ghost predicate Placed(slots: seq<Slot>, lo: nat, hi: nat) {
    && (forall i :: 0 <= i < |slots| && slots[i].Valid() ==> slots[i].size > 0 && lo <= slots[i].offset && slots[i].End() <= hi)
    && (forall i, j :: 0 <= i < j < |slots| && slots[i].Valid() && slots[j].Valid() ==> Apart(slots[i], slots[j]))
  }

  ghost predicate Cleared(slots: seq<Slot>) {
    forall i :: 0 <= i < |slots| && !slots[i].Valid() ==> slots[i] == NO_SLOT
  }

  /** The space above the free pointer is used by objects or counted as fragmented. */
  ghost predicate Ok(p: Page, bs: nat) {
    && SlotToOffset(|p.slots|) <= p.freePtr <= bs
    && Placed(p.slots, p.freePtr, bs) && Cleared(p.slots)
    && LiveBytes(p.slots) + p.fragmented == bs - p.freePtr
    && (|p.slots| > 0 ==> p.slots[|p.slots| - 1].Valid())
  }

  // ---- Sums over slots.

  lemma {:induction false} LiveBytesUpdate(slots: seq<Slot>, i: nat, s: Slot)
    requires i < |slots|
    ensures LiveBytes(slots[i := s]) + (if slots[i].Valid() then slots[i].size else 0)
            == LiveBytes(slots) + if s.Valid() then s.size else 0
  {
    var n := |slots| - 1;
    if i < n {
      LiveBytesUpdate(slots[..n], i, s);
      assert slots[i := s][..n] == slots[..n][i := s];
    } else {
      assert slots[i := s][..n] == slots[..n];
    }
  }

  lemma LiveBytesAppend(slots: seq<Slot>, s: Slot)
    ensures LiveBytes(slots + [s]) == LiveBytes(slots) + if s.Valid() then s.size else 0
  {}

  /** The sum depends only on which slots are used and how large their objects are. */
  lemma {:induction false} LiveBytesSame(slots: seq<Slot>, slots': seq<Slot>)
    requires SameShape(slots, slots')
    ensures LiveBytes(slots) == LiveBytes(slots')
  {
    if |slots| > 0 {
      LiveBytesSame(slots[..|slots| - 1], slots'[..|slots| - 1]);
    }
  }

  // ---- Slots that are not in use.

  ghost predicate HasFree(slots: seq<Slot>) {
    exists i :: 0 <= i < |slots| && !slots[i].Valid()
  }

  /** The slots without the unused ones at the end. */
  function Trim(slots: seq<Slot>): (r: seq<Slot>)
    ensures |r| <= |slots| && r == slots[..|r|]
    ensures |r| > 0 ==> r[|r| - 1].Valid()
  {
    if |slots| == 0 || slots[|slots| - 1].Valid() then slots else Trim(slots[..|slots| - 1])
  }

  lemma {:induction false} TrimKeeps(slots: seq<Slot>)
    ensures LiveBytes(Trim(slots)) == LiveBytes(slots)
    ensures forall i :: |Trim(slots)| <= i < |slots| ==> !slots[i].Valid()
  {
    if |slots| > 0 && !slots[|slots| - 1].Valid() {
      TrimKeeps(slots[..|slots| - 1]);
    }
  }

  /** The same slots are in use, for objects of the same sizes. */
  ghost predicate SameShape(slots: seq<Slot>, slots': seq<Slot>) {
    |slots| == |slots'| && forall i :: 0 <= i < |slots| ==> slots[i].Valid() == slots'[i].Valid() && slots[i].size == slots'[i].size
  }

  // ---- What the operations do to the layout.

  function Unfragmented(p: Page): int {
    p.freePtr - SlotToOffset(|p.slots|)
  }

  /** The free bytes for an object: fragmented ones count, and a new slot is paid for if one is needed. */
  ghost function EffectiveFree(p: Page): int {
    var free := Unfragmented(p) + p.fragmented;
    if HasFree(p.slots) then free else if free > SLOT_SIZE then free - SLOT_SIZE else 0
  }

  /** That is the size of the largest object that fits with header, slots and all other objects into the block. */
  lemma EffectiveFreeIs(p: Page, bs: nat, n: nat)
    requires Ok(p, bs) && n > 0
    ensures n <= EffectiveFree(p) <==>
            12 + 8 * |p.slots| + (if forall i :: 0 <= i < |p.slots| ==> p.slots[i].Valid() then 8 else 0) + LiveBytes(p.slots) + n <= bs
  {
    hide Placed, Cleared, LiveBytes;
  }

  /** The free bytes of a page depend only on which slots are in use and for how many bytes. */
  lemma EffectiveFreeOfShape(p: Page, q: Page, bs: nat)
    requires Ok(p, bs) && Ok(q, bs) && SameShape(p.slots, q.slots)
    ensures EffectiveFree(p) == EffectiveFree(q)
  {
    hide Placed, Cleared, LiveBytes;
    LiveBytesSame(p.slots, q.slots);
    assert HasFree(p.slots) == HasFree(q.slots);
  }

  /** Slot `i`, which may be a new one, gets the bytes just below the free pointer. */
  function Allocated(p: Page, i: nat, size: nat): Page
    requires i <= |p.slots| && size <= p.freePtr
  {
    var s := Slot(p.freePtr - size, size);
    Page(if i < |p.slots| then p.slots[i := s] else p.slots + [s], p.freePtr - size, p.fragmented)
  }

  lemma PlacedMore(slots: seq<Slot>, i: nat, s: Slot, lo: nat, hi: nat)
    requires Placed(slots, lo, hi) && i <= |slots| && (i < |slots| ==> !slots[i].Valid())
    requires s.Valid() && s.size > 0 && s.End() == lo <= hi
    ensures Placed(if i < |slots| then slots[i := s] else slots + [s], s.offset, hi)
  {}

  lemma AllocatedOk(p: Page, bs: nat, i: nat, size: nat)
    requires Ok(p, bs) && i <= |p.slots| && (i < |p.slots| ==> !p.slots[i].Valid())
    requires 0 < size && size + (if i < |p.slots| then 0 else SLOT_SIZE) <= Unfragmented(p)
    ensures Ok(Allocated(p, i, size), bs)
  {
    hide Placed, LiveBytes;
    var s := Slot(p.freePtr - size, size);
    PlacedMore(p.slots, i, s, p.freePtr, bs);
    if i < |p.slots| { LiveBytesUpdate(p.slots, i, s); } else { LiveBytesAppend(p.slots, s); }
  }

  /** The slot is given up; its bytes join the free space directly or as fragmented ones. */
  function Freed(p: Page, i: nat): Page
    requires i < |p.slots|
  {
    var s := p.slots[i];
    var slots := Trim(p.slots[i := NO_SLOT]);
    if s.offset == p.freePtr then Page(slots, p.freePtr + s.size, p.fragmented)
    else Page(slots, p.freePtr, p.fragmented + s.size)
  }

  lemma PlacedWithout(slots: seq<Slot>, i: nat, lo: nat, hi: nat)
    requires Placed(slots, lo, hi) && i < |slots| && slots[i].Valid()
    ensures Placed(slots[i := NO_SLOT], if slots[i].offset == lo then slots[i].End() else lo, hi)
    ensures lo <= slots[i].offset && slots[i].End() <= hi
  {}

  lemma PlacedPrefix(slots: seq<Slot>, n: nat, lo: nat, hi: nat)
    requires Placed(slots, lo, hi) && n <= |slots|
    ensures Placed(slots[..n], lo, hi)
  {}

  lemma FreedOk(p: Page, bs: nat, i: nat)
    requires Ok(p, bs) && i < |p.slots| && p.slots[i].Valid()
    ensures Ok(Freed(p, i), bs)
  {
    hide Placed, LiveBytes, Trim;
    var slots := p.slots[i := NO_SLOT];
    LiveBytesUpdate(p.slots, i, NO_SLOT);
    TrimKeeps(slots);
    PlacedWithout(p.slots, i, p.freePtr, bs);
    PlacedPrefix(slots, |Trim(slots)|, Freed(p, i).freePtr, bs);
  }

  /** A new object uses up effective space. */
  lemma AllocatedHasLess(p: Page, bs: nat, i: nat, size: nat)
    requires Ok(p, bs) && i <= |p.slots| && (i < |p.slots| ==> !p.slots[i].Valid())
    requires i == |p.slots| ==> !HasFree(p.slots)
    requires 0 < size <= EffectiveFree(p) && size <= p.freePtr
    ensures EffectiveFree(Allocated(p, i, size)) < EffectiveFree(p)
  {}

  /** A page that loses an object but not all of them has space. */
  lemma FreedHasSpace(p: Page, bs: nat, i: nat)
    requires Ok(p, bs) && i < |p.slots| && p.slots[i].Valid()
    ensures EffectiveFree(Freed(p, i)) > 0
  {
    hide LiveBytes, Cleared, Trim;
    var q := Freed(p, i);
    TrimKeeps(p.slots[i := NO_SLOT]);
    assert |q.slots| == |p.slots| ==> i < |q.slots| && q.slots[i] == NO_SLOT;
    assert |q.slots| == |p.slots| ==> HasFree(q.slots);
  }

  /** An empty page has room for one object that is smaller by a header and a slot. */
  lemma FreshPage(bs: nat)
    requires bs >= HEADER_SIZE + SLOT_SIZE
    ensures Ok(Page([], bs, 0), bs) && EffectiveFree(Page([], bs, 0)) == bs - HEADER_SIZE - SLOT_SIZE
  {}

  /** Giving up the object that was allocated last restores the page exactly. */
  lemma FreeUndoesAllocate(p: Page, bs: nat, i: nat, size: nat)
    requires Ok(p, bs) && i <= |p.slots| && (i < |p.slots| ==> !p.slots[i].Valid())
    requires 0 < size && size + (if i < |p.slots| then 0 else SLOT_SIZE) <= Unfragmented(p)
    ensures Freed(Allocated(p, i, size), i) == p
  {
    hide Placed, LiveBytes;
    var q := Allocated(p, i, size);
    var slots := q.slots[i := NO_SLOT];
    assert slots == if i < |p.slots| then p.slots else p.slots + [NO_SLOT];
    assert (p.slots + [NO_SLOT])[..|p.slots|] == p.slots;
    assert Trim(p.slots) == p.slots;
  }

  // ---- The bytes of the objects.

  /** The objects of a page, by slot. */
  ghost function Objects(b: Block, slots: seq<Slot>): (m: map<nat, seq<byte>>)
    requires Placed(slots, 0, |b|)
  {
    map i | 0 <= i < |slots| && slots[i].Valid() :: b[slots[i].offset..slots[i].End()]
  }

  lemma PlacedWider(slots: seq<Slot>, lo: nat, hi: nat, lo': nat, hi': nat)
    requires Placed(slots, lo, hi) && lo' <= lo && hi <= hi'
    ensures Placed(slots, lo', hi')
  {}
}
