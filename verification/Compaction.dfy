/**
Page compaction: objects are visited from the highest to the lowest and shifted to the end of the page.
*/
module Compaction {
  import opened Blocks
  import opened BigEndian
  import opened Pages
  import opened PageBytes

  /** A slot in use: its index and where its object lies. */
  datatype Entry = Entry(index: nat, offset: nat, size: nat) {
    function End(): nat {
      offset + size
    }
  }

  ghost function Sum(t: seq<Entry>): nat {
    if t == [] then 0 else Sum(t[..|t| - 1]) + t[|t| - 1].size
  }

  /** The entry is that of a slot in use. */
  ghost predicate IsEntry(slots: seq<Slot>, e: Entry) {
    e.index < |slots| && slots[e.index].Valid() && slots[e.index] == Slot(e.offset, e.size)
  }

  ghost predicate AreEntries(t: seq<Entry>, slots: seq<Slot>) {
    forall k :: 0 <= k < |t| ==> IsEntry(slots, t[k])
  }

  ghost predicate Distinct(t: seq<Entry>) {
    forall j, k :: 0 <= j < k < |t| ==> t[j].index != t[k].index
  }

  ghost predicate Covers(t: seq<Entry>, slots: seq<Slot>) {
    forall i :: 0 <= i < |slots| && slots[i].Valid() ==> exists k :: 0 <= k < |t| && t[k].index == i
  }

  /** Every slot in use is listed exactly once. */
  ghost predicate Lists(t: seq<Entry>, slots: seq<Slot>) {
    AreEntries(t, slots) && Distinct(t) && Covers(t, slots) && Sum(t) == LiveBytes(slots)
  }

  ghost predicate Sorted(t: seq<Entry>) {
    forall j, k :: 0 <= j < k < |t| ==> t[j].offset >= t[k].offset
  }

  // ---- Collecting and sorting the slots in use.

  lemma SumAppend(t: seq<Entry>, e: Entry)
    ensures Sum(t + [e]) == Sum(t) + e.size
  {}

  lemma CoversAppend(t: seq<Entry>, slots: seq<Slot>, s: Slot)
    requires Covers(t, slots)
    ensures Covers(if s.Valid() then t + [Entry(|slots|, s.offset, s.size)] else t, slots + [s])
  {
    var t' := if s.Valid() then t + [Entry(|slots|, s.offset, s.size)] else t;
    forall i | 0 <= i < |slots| + 1 && (slots + [s])[i].Valid() ensures exists k :: 0 <= k < |t'| && t'[k].index == i {
      if i < |slots| {
        var k :| 0 <= k < |t| && t[k].index == i;
        assert t'[k].index == i;
      } else {
        assert t'[|t|].index == i;
      }
    }
  }

  lemma ListsAppend(t: seq<Entry>, slots: seq<Slot>, s: Slot)
    requires Lists(t, slots)
    ensures Lists(if s.Valid() then t + [Entry(|slots|, s.offset, s.size)] else t, slots + [s])
  {
    hide Covers, Sum, LiveBytes;
    LiveBytesAppend(slots, s);
    SumAppend(t, Entry(|slots|, s.offset, s.size));
    CoversAppend(t, slots, s);
  }

  /** The slots in use, in slot order. */
  method Collect(block: Block, count: nat, ghost slots: seq<Slot>) returns (t: seq<Entry>)
    requires |slots| == count && SlotToOffset(count) <= |block|
    requires forall i :: 0 <= i < count ==> SlotAt(block, i) == slots[i]
    ensures Lists(t, slots)
  {
    hide Lists;
    t := [];
    NothingListed();
    var i := 0;
    while i < count
      invariant 0 <= i <= count && Lists(t, slots[..i])
    {
      var s := SlotAt(block, i);
      ListsAppend(t, slots[..i], s);
      assert slots[..i] + [s] == slots[..i + 1];
      if s.Valid() {
        t := t + [Entry(i, s.offset, s.size)];
      }
      i := i + 1;
    }
    assert slots[..count] == slots;
  }

  lemma NothingListed()
    ensures Lists([], [])
  {}

  function Swap(t: seq<Entry>, a: nat): (r: seq<Entry>)
    requires a + 1 < |t|
    ensures |r| == |t|
  {
    t[a := t[a + 1]][a + 1 := t[a]]
  }

  lemma {:induction false} SumUpdate(t: seq<Entry>, i: nat, e: Entry)
    requires i < |t|
    ensures Sum(t[i := e]) + t[i].size == Sum(t) + e.size
  {
    var n := |t| - 1;
    if i < n {
      SumUpdate(t[..n], i, e);
      assert t[i := e][..n] == t[..n][i := e];
    } else {
      assert t[i := e][..n] == t[..n];
    }
  }

  lemma SumSwap(t: seq<Entry>, a: nat)
    requires a + 1 < |t|
    ensures Sum(Swap(t, a)) == Sum(t)
  {
    SumUpdate(t, a, t[a + 1]);
    SumUpdate(t[a := t[a + 1]], a + 1, t[a]);
  }

  lemma CoversSwap(t: seq<Entry>, slots: seq<Slot>, a: nat)
    requires Covers(t, slots) && a + 1 < |t|
    ensures Covers(Swap(t, a), slots)
  {
    var t' := Swap(t, a);
    forall i | 0 <= i < |slots| && slots[i].Valid() ensures exists j :: 0 <= j < |t'| && t'[j].index == i {
      var j :| 0 <= j < |t| && t[j].index == i;
      assert t'[if j == a then a + 1 else if j == a + 1 then a else j].index == i;
    }
  }

  lemma ListsSwap(t: seq<Entry>, slots: seq<Slot>, a: nat)
    requires Lists(t, slots) && a + 1 < |t|
    ensures Lists(Swap(t, a), slots)
  {
    hide Covers, Sum, LiveBytes;
    SumSwap(t, a);
    CoversSwap(t, slots, a);
  }

  /** Sorts by offset, highest first. */
  method SortDescending(s: seq<Entry>, ghost slots: seq<Slot>) returns (t: seq<Entry>)
    requires Lists(s, slots)
    ensures Lists(t, slots) && Sorted(t)
  {
    hide Lists;
    t := s;
    var k := 0;
    while k < |t|
      invariant k <= |t| && Lists(t, slots) && Sorted(t[..k])
      decreases |t| - k
    {
      t := Sink(t, k, slots);
      k := k + 1;
    }
    assert t[..k] == t;
  }

  /** Moves element `k` down to its place among the sorted ones before it. */
  method Sink(s: seq<Entry>, k: nat, ghost slots: seq<Slot>) returns (t: seq<Entry>)
    requires k < |s| && Lists(s, slots) && Sorted(s[..k])
    ensures |t| == |s| && Lists(t, slots) && Sorted(t[..k + 1])
  {
    hide Lists;
    t := s;
    var a := k;
    while a > 0 && t[a - 1].offset < t[a].offset
      invariant 0 <= a <= k && |t| == |s| && Lists(t, slots)
      invariant forall i, j :: 0 <= i < j <= k && i != a && j != a ==> t[i].offset >= t[j].offset
      invariant forall j :: a < j <= k ==> t[a].offset >= t[j].offset
    {
      ListsSwap(t, slots, a - 1);
      t := Swap(t, a - 1);
      a := a - 1;
    }
  }

  // ---- Shifting the objects.

  /** Highest first, without overlap, inside [lo, hi). */
  ghost predicate Stacked(t: seq<Entry>, lo: nat, hi: nat) {
    && (forall k :: 0 <= k < |t| ==> t[k].size > 0 && lo <= t[k].offset && t[k].End() <= hi)
    && (forall j, k :: 0 <= j < k < |t| ==> t[k].End() <= t[j].offset)
  }

  lemma SortedIsStacked(t: seq<Entry>, slots: seq<Slot>, lo: nat, hi: nat)
    requires Lists(t, slots) && Sorted(t) && Placed(slots, lo, hi)
    ensures Stacked(t, lo, hi)
  {}

  lemma SumStep(t: seq<Entry>, k: nat)
    requires k < |t|
    ensures Sum(t[..k + 1]) == Sum(t[..k]) + t[k].size
  {
    assert t[..k + 1][..k] == t[..k];
  }

  /** There is room above an object for it and everything before it, so it moves up or stays. */
  lemma {:induction false} MovesUp(t: seq<Entry>, lo: nat, bs: nat, k: nat)
    requires Stacked(t, lo, bs) && k < |t|
    ensures t[k].offset + Sum(t[..k + 1]) <= bs
  {
    SumStep(t, k);
    if k > 0 {
      MovesUp(t, lo, bs, k - 1);
    }
  }

  /** Where object `j` ends up: below all objects before it. */
  ghost function Dest(t: seq<Entry>, bs: nat, j: nat): (d: nat)
    requires j < |t| && Stacked(t, 1, bs)
    ensures t[j].offset <= d && d + t[j].size <= bs
  {
    MovesUp(t, 1, bs, j);
    SumStep(t, j);
    bs - Sum(t[..j + 1])
  }

  /** Destinations descend in the same order, without overlap. */
  lemma {:induction false} DestsApart(t: seq<Entry>, bs: nat, j: nat, k: nat)
    requires j < k < |t| && Stacked(t, 1, bs)
    ensures Dest(t, bs, k) + t[k].size <= Dest(t, bs, j)
  {
    SumStep(t, k);
    if j < k - 1 {
      DestsApart(t, bs, j, k - 1);
    }
  }

  /** The slots after the first `k` objects were moved. */
  ghost function Moved(slots: seq<Slot>, t: seq<Entry>, bs: nat, k: nat): (r: seq<Slot>)
    requires k <= |t| && Stacked(t, 1, bs) && AreEntries(t, slots)
    ensures |r| == |slots|
  {
    if k == 0 then slots
    else
      assert IsEntry(slots, t[k - 1]);
      Moved(slots, t, bs, k - 1)[t[k - 1].index := Slot(Dest(t, bs, k - 1), t[k - 1].size)]
  }

  lemma {:induction false} MovedAt(slots: seq<Slot>, t: seq<Entry>, bs: nat, k: nat, j: nat)
    requires j < |t| && k <= |t| && Stacked(t, 1, bs) && AreEntries(t, slots) && Distinct(t)
    ensures Moved(slots, t, bs, k)[t[j].index] == if j < k then Slot(Dest(t, bs, j), t[j].size) else Slot(t[j].offset, t[j].size)
    decreases k
  {
    assert IsEntry(slots, t[j]);
    if k > 0 {
      MovedAt(slots, t, bs, k - 1, j);
    }
  }

  lemma {:induction false} MovedElsewhere(slots: seq<Slot>, t: seq<Entry>, bs: nat, k: nat, i: nat)
    requires i < |slots| && k <= |t| && Stacked(t, 1, bs) && AreEntries(t, slots)
    ensures Moved(slots, t, bs, k)[i].Valid() == slots[i].Valid() && Moved(slots, t, bs, k)[i].size == slots[i].size
    decreases k
  {
    if k > 0 {
      MovedElsewhere(slots, t, bs, k - 1, i);
      assert IsEntry(slots, t[k - 1]);
    }
  }

  /** After `k` moves: moved objects are in place, and nothing below the last moved one has changed. */
  ghost predicate Shifting(orig: Block, b: Block, t: seq<Entry>, front: nat, k: nat)
    requires k <= |t| && Stacked(t, 1, |orig|)
  {
    && |b| == |orig|
    && (forall j :: 0 <= j < k ==> b[Dest(t, |orig|, j)..Dest(t, |orig|, j) + t[j].size] == orig[t[j].offset..t[j].End()])
    && (forall i :: front <= i < (if k == 0 then |orig| else t[k - 1].offset) ==> b[i] == orig[i])
  }

  lemma WindowStays(b: Block, src: nat, dest: nat, size: nat, at: nat, n: nat)
    requires src + size <= |b| && dest + size <= |b| && at + n <= |b| && (at + n <= dest || dest + size <= at)
    ensures Memmove(b, src, dest, size)[at..at + n] == b[at..at + n]
  {}

  lemma ShiftStep(orig: Block, b: Block, t: seq<Entry>, front: nat, k: nat)
    requires k < |t| && Stacked(t, 1, |orig|) && Stacked(t, front, |orig|) && Shifting(orig, b, t, front, k)
    ensures Shifting(orig, Memmove(b, t[k].offset, Dest(t, |orig|, k), t[k].size), t, front, k + 1)
  {
    hide Sum, Dest;
    var bs := |orig|;
    var d := Dest(t, bs, k);
    var b' := Memmove(b, t[k].offset, d, t[k].size);
    forall j | 0 <= j < k + 1 ensures b'[Dest(t, bs, j)..Dest(t, bs, j) + t[j].size] == orig[t[j].offset..t[j].End()] {
      if j < k {
        DestsApart(t, bs, j, k);
        WindowStays(b, t[k].offset, d, t[k].size, Dest(t, bs, j), t[j].size);
      } else {
        MovedWindow(orig, b, t[k].offset, d, t[k].size);
      }
    }
  }

  lemma MovedWindow(orig: Block, b: Block, src: nat, dest: nat, size: nat)
    requires src + size <= |b| == |orig| && dest + size <= |b| && forall i :: src <= i < src + size ==> b[i] == orig[i]
    ensures Memmove(b, src, dest, size)[dest..dest + size] == orig[src..src + size]
  {}

  /** Writing below the objects does not disturb them. */
  lemma ShiftKept(orig: Block, b: Block, b': Block, t: seq<Entry>, front: nat, k: nat)
    requires k <= |t| && Stacked(t, 1, |orig|) && Stacked(t, front, |orig|) && Shifting(orig, b, t, front, k)
    requires SameAbove(b, b', front)
    ensures Shifting(orig, b', t, front, k)
  {
    hide Sum, Dest;
    forall j | 0 <= j < k ensures b'[Dest(t, |orig|, j)..Dest(t, |orig|, j) + t[j].size] == orig[t[j].offset..t[j].End()] {
      var d := Dest(t, |orig|, j);
      assert b'[d..d + t[j].size] == b[d..d + t[j].size];
    }
  }

  /** The header and the slots are what the block shows, whatever lies above them. */
  lemma ShowsBelow(b: Block, b': Block, p: Page)
    requires Shows(b, p) && |b'| == |b| && forall i :: 0 <= i < SlotToOffset(|p.slots|) ==> b'[i] == b[i]
    ensures Shows(b', p)
  {
    hide Decode;
    assert b'[0..4] == b[0..4] && b'[4..8] == b[4..8] && b'[8..12] == b[8..12];
    forall i | 0 <= i < |p.slots| ensures SlotAt(b', i) == p.slots[i] {
      var o := SlotToOffset(i);
      assert b'[o..o + 4] == b[o..o + 4] && b'[o + 4..o + 8] == b[o + 4..o + 8];
    }
  }

  /** One move of the compaction: the object, then its slot, unless it is in place already. */
  method MoveObject(block: Block, e: Entry, dest: nat, ghost orig: Block, ghost p: Page, ghost t: seq<Entry>, ghost k: nat) returns (b: Block)
    requires k < |t| && t[k] == e && Stacked(t, 1, |orig|) && dest == Dest(t, |orig|, k)
    requires |orig| < U32_END && Stacked(t, SlotToOffset(|p.slots|), |orig|) && AreEntries(t, p.slots) && Distinct(t)
    requires Shows(block, p.(slots := Moved(p.slots, t, |orig|, k))) && Shifting(orig, block, t, SlotToOffset(|p.slots|), k)
    ensures Shows(b, p.(slots := Moved(p.slots, t, |orig|, k + 1))) && Shifting(orig, b, t, SlotToOffset(|p.slots|), k + 1)
  {
    hide Sum, Dest, Shows, Shifting, WithSlot;
    ghost var front, q := SlotToOffset(|p.slots|), p.(slots := Moved(p.slots, t, |orig|, k));
    ShiftSize(orig, block, t, front, k);
    ShiftStep(orig, block, t, front, k);
    MovedAt(p.slots, t, |orig|, k, k);
    if dest == e.offset {
      MemmoveSelf(block, dest, e.size);
      assert Moved(p.slots, t, |orig|, k + 1) == Moved(p.slots, t, |orig|, k);
      return block;
    }
    b := Memmove(block, e.offset, dest, e.size);
    ShowsBelow(block, b, q);
    ghost var b1 := b;
    ShowsSlot(b, q, e.index, Slot(dest, e.size));
    SlotValues(b, e.index, Slot(dest, e.size));
    b := WithSlot(b, e.index, Slot(dest, e.size));
    ShiftKept(orig, b1, b, t, front, k + 1);
  }

  lemma ShiftSize(orig: Block, b: Block, t: seq<Entry>, front: nat, k: nat)
    requires k <= |t| && Stacked(t, 1, |orig|) && Shifting(orig, b, t, front, k)
    ensures |b| == |orig|
  {}

  /** The slot of every object holds its destination. */
  lemma MovedSlot(slots: seq<Slot>, t: seq<Entry>, bs: nat, i: nat) returns (j: nat)
    requires Lists(t, slots) && Stacked(t, 1, bs) && i < |slots| && slots[i].Valid()
    ensures j < |t| && t[j] == Entry(i, slots[i].offset, slots[i].size)
    ensures Moved(slots, t, bs, |t|)[i] == Slot(Dest(t, bs, j), slots[i].size)
  {
    hide Sum, Dest, LiveBytes, Stacked;
    j :| 0 <= j < |t| && t[j].index == i;
    assert IsEntry(slots, t[j]);
    MovedAt(slots, t, bs, |t|, j);
  }

  lemma {:induction false} SumGrows(t: seq<Entry>, k: nat)
    requires k <= |t|
    ensures Sum(t[..k]) <= Sum(t)
    decreases |t| - k
  {
    if k < |t| {
      SumStep(t, k);
      SumGrows(t, k + 1);
    } else {
      assert t[..k] == t;
    }
  }

  lemma MovedPlaced(slots: seq<Slot>, t: seq<Entry>, bs: nat)
    requires Lists(t, slots) && Stacked(t, 1, bs) && Sum(t) <= bs
    ensures Placed(Moved(slots, t, bs, |t|), bs - Sum(t), bs)
  {
    hide Sum, LiveBytes, IsEntry, AreEntries, Distinct, Covers, Moved, Dest;
    var slots' := Moved(slots, t, bs, |t|);
    forall i | 0 <= i < |slots'| && slots'[i].Valid()
      ensures slots'[i].size > 0 && bs - Sum(t) <= slots'[i].offset && slots'[i].End() <= bs
    {
      MovedValid(slots, t, bs, i);
      var j := MovedSlot(slots, t, bs, i);
      SumGrows(t, j + 1);
      DestIs(t, bs, j);
    }
    forall i, i' | 0 <= i < i' < |slots'| && slots'[i].Valid() && slots'[i'].Valid() ensures Pages.Apart(slots'[i], slots'[i']) {
      MovedValid(slots, t, bs, i);
      MovedValid(slots, t, bs, i');
      var j := MovedSlot(slots, t, bs, i);
      var j' := MovedSlot(slots, t, bs, i');
      if j < j' { DestsApart(t, bs, j, j'); } else { DestsApart(t, bs, j', j); }
    }
  }

  lemma MovedValid(slots: seq<Slot>, t: seq<Entry>, bs: nat, i: nat)
    requires Lists(t, slots) && Stacked(t, 1, bs) && i < |slots|
    ensures Moved(slots, t, bs, |t|)[i].Valid() == slots[i].Valid() && Moved(slots, t, bs, |t|)[i].size == slots[i].size
  {
    MovedElsewhere(slots, t, bs, |t|, i);
  }

  lemma MovedObjects(orig: Block, b: Block, slots: seq<Slot>, t: seq<Entry>, front: nat)
    requires Lists(t, slots) && Stacked(t, 1, |orig|) && Shifting(orig, b, t, front, |t|)
    requires Placed(slots, 0, |orig|) && Placed(Moved(slots, t, |orig|, |t|), 0, |b|)
    ensures Objects(b, Moved(slots, t, |orig|, |t|)) == Objects(orig, slots)
  {
    hide Sum, LiveBytes, Stacked, Dest, Placed, Moved, IsEntry, AreEntries, Distinct, Covers, Shifting;
    ShiftSize(orig, b, t, front, |t|);
    var slots' := Moved(slots, t, |orig|, |t|);
    forall i | 0 <= i < |slots| ensures slots'[i].Valid() == slots[i].Valid() {
      MovedValid(slots, t, |orig|, i);
    }
    forall i | i in Objects(orig, slots) ensures Objects(b, slots')[i] == Objects(orig, slots)[i] {
      var j := MovedSlot(slots, t, |orig|, i);
      ShiftedWindow(orig, b, t, front, j);
    }
  }

  lemma ShiftedWindow(orig: Block, b: Block, t: seq<Entry>, front: nat, j: nat)
    requires j < |t| && Stacked(t, 1, |orig|) && Shifting(orig, b, t, front, |t|)
    ensures b[Dest(t, |orig|, j)..Dest(t, |orig|, j) + t[j].size] == orig[t[j].offset..t[j].End()]
  {}

  /** The page after compaction. */
  lemma CompactedOk(p: Page, t: seq<Entry>, bs: nat)
    requires Ok(p, bs) && Lists(t, p.slots) && Stacked(t, 1, bs)
    ensures Sum(t) <= bs && Ok(Page(Moved(p.slots, t, bs, |t|), bs - Sum(t), 0), bs)
    ensures HasFree(Moved(p.slots, t, bs, |t|)) == HasFree(p.slots)
  {
    hide Sum, LiveBytes, Stacked, Placed, IsEntry, Covers, AreEntries, Distinct;
    var slots' := Moved(p.slots, t, bs, |t|);
    forall i | 0 <= i < |slots'| ensures slots'[i].Valid() == p.slots[i].Valid() && slots'[i].size == p.slots[i].size {
      MovedValid(p.slots, t, bs, i);
    }
    LiveBytesSame(p.slots, slots');
    MovedPlaced(p.slots, t, bs);
  }

  lemma ShowsCount(b: Block, p: Page)
    requires Shows(b, p)
    ensures SlotToOffset(|p.slots|) <= |b| && GetU32(b, 0) == |p.slots|
    ensures forall i :: 0 <= i < |p.slots| ==> SlotAt(b, i) == p.slots[i]
  {}

  lemma StackedWider(t: seq<Entry>, lo: nat, hi: nat, lo': nat)
    requires Stacked(t, lo, hi) && lo' <= lo
    ensures Stacked(t, lo', hi)
  {}

  lemma NothingMoved(orig: Block, slots: seq<Slot>, t: seq<Entry>, front: nat)
    requires Stacked(t, 1, |orig|) && AreEntries(t, slots)
    ensures Sum(t[..0]) == 0 && Shifting(orig, orig, t, front, 0)
    ensures Moved(slots, t, |orig|, 0) == slots
  {}

  /** Moves the objects one after the other. */
  method MoveAll(block: Block, t: seq<Entry>, ghost p: Page) returns (b: Block, dest: nat)
    requires |block| < U32_END && Stacked(t, 1, |block|) && Stacked(t, SlotToOffset(|p.slots|), |block|)
    requires AreEntries(t, p.slots) && Distinct(t) && Shows(block, p) && Sum(t) <= |block|
    ensures Shows(b, p.(slots := Moved(p.slots, t, |block|, |t|))) && Shifting(block, b, t, SlotToOffset(|p.slots|), |t|)
    ensures dest == |block| - Sum(t)
  {
    hide Sum, Dest, Shows, Shifting, Stacked, IsEntry, AreEntries, Distinct, Moved;
    NothingMoved(block, p.slots, t, SlotToOffset(|p.slots|));
    b, dest := block, |block|;
    var k := 0;
    while k < |t|
      invariant 0 <= k <= |t| && Sum(t[..k]) <= |block| && dest == |block| - Sum(t[..k])
      invariant Shows(b, p.(slots := Moved(p.slots, t, |block|, k)))
      invariant Shifting(block, b, t, SlotToOffset(|p.slots|), k)
    {
      SumStep(t, k);
      SumGrows(t, k + 1);
      DestIs(t, |block|, k);
      dest := dest - t[k].size;
      b := MoveObject(b, t[k], dest, block, p, t, k);
      k := k + 1;
    }
    assert t[..k] == t;
  }

  lemma DestIs(t: seq<Entry>, bs: nat, k: nat)
    requires k < |t| && Stacked(t, 1, bs)
    ensures Sum(t[..k + 1]) <= bs && Dest(t, bs, k) == bs - Sum(t[..k + 1])
  {
    MovesUp(t, 1, bs, k);
  }

  /**
  Shifts all objects to the end of the page. Every slot keeps its index, its size and its bytes,
  and all free space becomes contiguous.
  */
  method PageCompact(page: PageHandle)
    requires page.Valid()
    modifies page
    ensures page.Valid() && |page.block| == |old(page.block)| && page.Contents() == old(page.Contents())
    ensures page.page.fragmented == 0 && page.page.freePtr == |page.block| - LiveBytes(old(page.page.slots))
    ensures |page.page.slots| == |old(page.page.slots)|
    ensures forall i :: 0 <= i < |page.page.slots| ==>
              page.page.slots[i].Valid() == old(page.page.slots)[i].Valid() && page.page.slots[i].size == old(page.page.slots)[i].size
  {
    hide Sum, Dest, Shows, Shifting, Placed, LiveBytes, Stacked, IsEntry, AreEntries, Covers, Distinct, WithHeader, Moved;
    ghost var p, orig, front := page.page, page.block, SlotToOffset(|page.page.slots|);
    ShowsCount(page.block, p);
    var collected := Collect(page.block, GetU32(page.block, 0), p.slots);
    var t := SortDescending(collected, p.slots);
    SortedIsStacked(t, p.slots, p.freePtr, |orig|);
    StackedWider(t, p.freePtr, |orig|, front);
    StackedWider(t, p.freePtr, |orig|, 1);
    CompactedOk(p, t, |orig|);
    var data, dest := MoveAll(page.block, t, p);
    ShiftSize(orig, data, t, front, |t|);
    PlacedWider(Moved(p.slots, t, |orig|, |t|), dest, |orig|, 0, |orig|);
    MovedObjects(orig, data, p.slots, t, front);
    forall i | 0 <= i < |p.slots| ensures Moved(p.slots, t, |orig|, |t|)[i].Valid() == p.slots[i].Valid() && Moved(p.slots, t, |orig|, |t|)[i].size == p.slots[i].size {
      MovedValid(p.slots, t, |orig|, i);
    }
    ghost var q := p.(slots := Moved(p.slots, t, |orig|, |t|));
    ShowsHeader(data, q, |q.slots|, dest, 0);
    HeaderValues(data, |q.slots|, dest, 0);
    page.block := WithHeader(data, GetU32(page.block, 0), dest, 0);
    page.page := Page(q.slots, dest, 0);
    assert q.slots[..|q.slots|] == q.slots;
    ObjectsSame(data, page.block, q.slots, dest);
  }
}
