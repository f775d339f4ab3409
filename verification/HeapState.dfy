/**
What the heap keeps on disk: pages with small objects, runs of blocks with one large object each,
and the two indexes over them.
*/
module HeapState {
  import opened Blocks
  import opened BigEndian
  import opened Pages
  import opened PageBytes
  import opened Runs
  import opened Wrappers
  import A = Allocator
  import Math

  /** A reference names the block of its object and, on a page, the slot. */
  datatype Ref = Ref(large: bool, block: nat, slot: nat)

  /** An allocation, indexed by its first block. */
  datatype Entry = Entry(large: bool, count: nat)

  /** A page with space for an object of up to `available` bytes. */
  datatype FreeEntry = FreeEntry(available: nat, block: nat) {
    predicate Before(other: FreeEntry) {
      available < other.available || (available == other.available && block < other.block)
    }
  }

  /** The layout of a page (of no interest for a large object) and the objects, by slot. */
  datatype Content = Content(page: Page, objects: map<nat, seq<byte>>)

  const LARGE_HEADER: nat := 4

  // ---- References as 64-bit values.

  ghost predicate Encodable(r: Ref, bs: nat) {
    && bs >= 16 && bs % 2 == 0 && r.block * bs + bs <= Math.TWO_POW_64
    && if r.large then r.slot == 0 else SlotToOffset(r.slot) < bs
  }

  /** Half the address of the object's slot or first block; the top bit tells large objects. */
  function RefValue(r: Ref, bs: nat): nat {
    if r.large then r.block * bs / 2 + Math.TWO_POW_63 else (r.block * bs + SlotToOffset(r.slot)) / 2
  }

  function RefOf(value: nat, bs: nat): Ref
    requires bs > 0
  {
    var address := value * 2 % Math.TWO_POW_64;
    if value >= Math.TWO_POW_63 then Ref(true, address / bs, 0)
    else Ref(false, address / bs, if address % bs >= HEADER_SIZE then (address % bs - HEADER_SIZE) / SLOT_SIZE else 0)
  }

  lemma BlockAddressIsEven(block: nat, bs: nat)
    requires bs % 2 == 0
    ensures block * bs % 2 == 0
  {
    assert block * bs == 2 * (block * (bs / 2));
  }

  lemma HalfAddress(address: nat)
    requires address % 2 == 0 && address < Math.TWO_POW_64
    ensures address / 2 < Math.TWO_POW_63 && address / 2 * 2 % Math.TWO_POW_64 == address
    ensures (address / 2 + Math.TWO_POW_63) * 2 % Math.TWO_POW_64 == address
  {}

  /** A reference is recovered from its value, so different references have different values. */
  lemma RefRoundTrip(r: Ref, bs: nat)
    requires Encodable(r, bs)
    ensures RefValue(r, bs) < Math.TWO_POW_64 - 1 && RefOf(RefValue(r, bs), bs) == r
  {
    BlockAddressIsEven(r.block, bs);
    var start := r.block * bs;
    var address := start + if r.large then 0 else SlotToOffset(r.slot);
    HalfAddress(address);
    DivUnique(address, bs, r.block);
    assert RefOf(RefValue(r, bs), bs).block == r.block;
  }

  /** The value of a reference: shifted to the left it is the address, and the bit that gets lost tells large objects. */
  lemma RefValueIs(r: Ref, bs: nat, v: nat)
    requires Encodable(r, bs) && v < Math.TWO_POW_64
    ensures v == RefValue(r, bs) <==>
            (v >= Math.TWO_POW_63 <==> r.large) && v * 2 % Math.TWO_POW_64 == r.block * bs + if r.large then 0 else 12 + 8 * r.slot
  {
    BlockAddressIsEven(r.block, bs);
    HalfAddress(r.block * bs + if r.large then 0 else SlotToOffset(r.slot));
  }

  // ---- One allocation.

  ghost predicate PageHolds(b: Block, x: Content) {
    && |b| < U32_END && Shows(b, x.page) && Ok(x.page, |b|) && Placed(x.page.slots, 0, |b|)
    && x.objects == Objects(b, x.page.slots)
  }

  /** Larger objects get blocks of their own. The product wraps around at 32 bits. */
  function MaxSmall(bs: nat): nat {
    bs * 3 % U32_END / 4
  }

  /** The number of blocks for a large object. The sum of size and header and the sum in the division wrap around at 32 bits. */
  function LargeBlocks(size: nat, bs: nat): nat
    requires 0 < bs < U32_END
  {
    Math.WrappingCeilDiv((size + LARGE_HEADER) % U32_END, bs, U32_END)
  }

  /** An object is large if it needs more than three quarters of a block. */
  lemma SmallIf(size: nat, bs: nat)
    ensures size > MaxSmall(bs) <==> 4 * size > 3 * bs % U32_END
    ensures 3 * bs < U32_END ==> 3 * bs % U32_END == 3 * bs
  {}

  /** A large object for which no blocks are computed. */
  predicate TooLarge(size: nat, bs: nat) {
    4 * size > 3 * bs % U32_END && size + 4 + bs - 1 >= U32_END
  }

  /** A large object as it is stored: its size, then its bytes. */
  function LargeImage(data: seq<byte>): (s: seq<byte>)
    requires |data| < U32_END
    ensures |s| == LARGE_HEADER + |data|
  {
    Pow256Of4();
    Encode(|data|, 4) + data
  }

  /** Four bytes for the size, most significant byte first, and then the object. */
  lemma LargeImageIs(s: seq<byte>, data: seq<byte>)
    requires |data| < U32_END
    ensures s == LargeImage(data) <==> |s| == 4 + |data| && Digits(s[..4], |data|) && s[4..] == data
  {
    hide Digits, Encode, Decode, Pow256;
    Pow256Of4();
    EncodeDigits(|data|, 4);
    if s == LargeImage(data) {
      assert s[..4] == Encode(|data|, 4);
    }
    if |s| == 4 + |data| && Digits(s[..4], |data|) && s[4..] == data {
      DigitsAre(s[..4], |data|);
      assert s == s[..4] + s[4..];
    }
  }

  ghost predicate LargeHolds(run: seq<Block>, bs: nat, data: seq<byte>) {
    && Uniform(run, bs) && 0 < |data| && LARGE_HEADER + |data| < U32_END && LARGE_HEADER + |data| <= |run| * bs
    && Flat(run, bs)[..LARGE_HEADER + |data|] == LargeImage(data)
  }

  ghost predicate EntryOk(c: nat, e: Entry, blocks: seq<Block>, bs: nat, x: Content) {
    && 0 < bs < U32_END && e.count > 0 && c + e.count <= |blocks|
    && if e.large then
         x.objects.Keys == {0} && e.count == LargeBlocks(|x.objects[0]|, bs) && LargeHolds(blocks[c..c + e.count], bs, x.objects[0])
       else e.count == 1 && PageHolds(blocks[c], x)
  }

  /**
  Exactly the sizes for which no sum wraps around get enough blocks. Of the others, all but three get no
  block at all.
  */
  lemma LargeBlocksFit(size: nat, bs: nat)
    requires 4 <= bs < U32_END && size < U32_END
    ensures size + LARGE_HEADER <= LargeBlocks(size, bs) * bs <==> size + LARGE_HEADER + bs - 1 < U32_END
    ensures size + LARGE_HEADER + bs - 1 >= U32_END && size + LARGE_HEADER <= U32_END ==> LargeBlocks(size, bs) == 0
    ensures size + LARGE_HEADER > U32_END ==> LargeBlocks(size, bs) <= 1
  {
    var n := size + LARGE_HEADER;
    Math.WrappingCeilDivCovers(n % U32_END, bs, U32_END);
    if n >= U32_END {
      AtMostOne(n - U32_END, bs);
    }
  }

  lemma AtMostOne(n: nat, bs: nat)
    requires n < bs
    ensures Math.CeilDiv(n, bs) == if n == 0 then 0 else 1
  {
    if n == 0 {
      DivUnique(bs - 1, bs, 0);
    } else {
      DivUnique(n + bs - 1, bs, 1);
    }
  }

  /** With blocks of 4096 bytes, an object of 2^32 - 5 bytes gets no block although its size and header do not wrap around. */
  lemma NoBlocks()
    ensures 0xFFFF_FFFB + LARGE_HEADER < U32_END && LargeBlocks(0xFFFF_FFFB, 4096) == 0
  {}

  // ---- All allocations.

  ghost predicate HomeIs(home: map<nat, nat>, c: nat, n: nat) {
    forall x :: c <= x < c + n ==> x in home && home[x] == c
  }

  ghost predicate Housed(pageMap: map<nat, Entry>, home: map<nat, nat>) {
    forall x :: x in home ==> home[x] in pageMap && home[x] <= x < home[x] + pageMap[home[x]].count
  }

  /** `home` maps each block of the heap to the first block of its allocation. */
  ghost predicate Homes(pageMap: map<nat, Entry>, home: map<nat, nat>) {
    && Housed(pageMap, home)
    && (forall c :: c in pageMap ==> pageMap[c].count > 0 && HomeIs(home, c, pageMap[c].count))
  }

  ghost predicate Structure(blocks: seq<Block>, bs: nat, pageMap: map<nat, Entry>, content: map<nat, Content>, home: map<nat, nat>) {
    && content.Keys == pageMap.Keys && Homes(pageMap, home)
    && (forall c :: c in pageMap ==> EntryOk(c, pageMap[c], blocks, bs, content[c]))
  }

  lemma EntryKept(c: nat, e: Entry, blocks: seq<Block>, blocks': seq<Block>, bs: nat, x: Content, except: set<nat>)
    requires EntryOk(c, e, blocks, bs, x) && A.Kept(blocks, blocks', except) && Range(c, c + e.count) !! except
    ensures EntryOk(c, e, blocks', bs, x)
  {
    hide PageHolds, LargeHolds, LargeBlocks, A.Kept, Range;
    A.SliceKept(blocks, blocks', except, c, e.count);
    assert blocks'[c] == blocks'[c..c + e.count][0] && blocks[c] == blocks[c..c + e.count][0];
  }

  lemma HomeOf(pageMap: map<nat, Entry>, home: map<nat, nat>, c: nat)
    requires Homes(pageMap, home) && c in pageMap
    ensures Range(c, c + pageMap[c].count) <= home.Keys
  {}

  lemma HomesApart(pageMap: map<nat, Entry>, home: map<nat, nat>, c: nat, d: nat)
    requires Homes(pageMap, home) && c in pageMap && d in pageMap && c != d
    ensures Range(c, c + pageMap[c].count) !! Range(d, d + pageMap[d].count)
  {
    assert HomeIs(home, c, pageMap[c].count) && HomeIs(home, d, pageMap[d].count);
    var own, other := Range(c, c + pageMap[c].count), Range(d, d + pageMap[d].count);
    forall x | x in own ensures x !in other {
      assert home[x] == c;
    }
  }

  /** Writing elsewhere keeps everything. */
  lemma StructureKept(blocks: seq<Block>, blocks': seq<Block>, bs: nat, pageMap: map<nat, Entry>, content: map<nat, Content>,
                      home: map<nat, nat>, except: set<nat>)
    requires Structure(blocks, bs, pageMap, content, home) && A.Kept(blocks, blocks', except) && home.Keys !! except
    ensures Structure(blocks', bs, pageMap, content, home)
  {
    hide EntryOk, Homes, A.Kept, Range;
    forall c | c in pageMap ensures EntryOk(c, pageMap[c], blocks', bs, content[c]) {
      HomeOf(pageMap, home, c);
      EntryKept(c, pageMap[c], blocks, blocks', bs, content[c], except);
    }
  }

  /** Writing one allocation keeps the others. */
  lemma StructureSet(blocks: seq<Block>, blocks': seq<Block>, bs: nat, pageMap: map<nat, Entry>, content: map<nat, Content>,
                     home: map<nat, nat>, c: nat, x: Content)
    requires Structure(blocks, bs, pageMap, content, home) && c in pageMap
    requires A.Kept(blocks, blocks', Range(c, c + pageMap[c].count)) && EntryOk(c, pageMap[c], blocks', bs, x)
    ensures Structure(blocks', bs, pageMap, content[c := x], home)
  {
    hide EntryOk, Homes, A.Kept, Range;
    forall d | d in pageMap ensures EntryOk(d, pageMap[d], blocks', bs, content[c := x][d]) {
      if d != c {
        HomesApart(pageMap, home, d, c);
        EntryKept(d, pageMap[d], blocks, blocks', bs, content[d], Range(c, c + pageMap[c].count));
      }
    }
  }

  ghost function Settle(home: map<nat, nat>, c: nat, n: nat): (r: map<nat, nat>)
    ensures r.Keys == home.Keys + Range(c, c + n)
    ensures forall x :: x in r ==> r[x] == if c <= x < c + n then c else home[x]
  {
    map x | x in home.Keys + Range(c, c + n) :: if c <= x < c + n then c else home[x]
  }

  lemma StructureAdd(blocks: seq<Block>, bs: nat, pageMap: map<nat, Entry>, content: map<nat, Content>,
                     home: map<nat, nat>, c: nat, e: Entry, x: Content)
    requires Structure(blocks, bs, pageMap, content, home) && EntryOk(c, e, blocks, bs, x)
    requires Range(c, c + e.count) !! home.Keys
    ensures c !in pageMap && Structure(blocks, bs, pageMap[c := e], content[c := x], Settle(home, c, e.count))
  {
    hide EntryOk, Range, Homes;
    EntryCount(c, e, blocks, bs, x);
    HomesAdd(pageMap, home, c, e);
  }

  lemma EntryCount(c: nat, e: Entry, blocks: seq<Block>, bs: nat, x: Content)
    requires EntryOk(c, e, blocks, bs, x)
    ensures e.count > 0 && c + e.count <= |blocks|
  {}

  lemma HomesAdd(pageMap: map<nat, Entry>, home: map<nat, nat>, c: nat, e: Entry)
    requires Homes(pageMap, home) && e.count > 0 && Range(c, c + e.count) !! home.Keys
    ensures c !in pageMap && Homes(pageMap[c := e], Settle(home, c, e.count))
  {
    hide HomeIs, Housed, Range;
    NewHome(pageMap, home, c, e.count);
    forall d | d in pageMap ensures HomeIs(Settle(home, c, e.count), d, pageMap[d].count) {
      StillHome(home, c, e.count, d, pageMap[d].count);
    }
    SettledHome(home, c, e.count);
    HousedAdd(pageMap, home, c, e);
  }

  lemma HousedAdd(pageMap: map<nat, Entry>, home: map<nat, nat>, c: nat, e: Entry)
    requires Housed(pageMap, home) && c !in pageMap
    ensures Housed(pageMap[c := e], Settle(home, c, e.count))
  {}

  lemma HousedRemove(pageMap: map<nat, Entry>, home: map<nat, nat>, c: nat)
    requires Housed(pageMap, home) && c in pageMap
    ensures Housed(pageMap - {c}, home - Range(c, c + pageMap[c].count))
  {}

  lemma NewHome(pageMap: map<nat, Entry>, home: map<nat, nat>, c: nat, n: nat)
    requires Homes(pageMap, home) && n > 0 && Range(c, c + n) !! home.Keys
    ensures c !in pageMap
  {
    assert c in Range(c, c + n);
    assert c !in home;
    assert c in pageMap ==> HomeIs(home, c, pageMap[c].count);
  }

  lemma StillHome(home: map<nat, nat>, c: nat, n: nat, d: nat, m: nat)
    requires HomeIs(home, d, m) && Range(c, c + n) !! home.Keys
    ensures HomeIs(Settle(home, c, n), d, m)
  {}

  lemma SettledHome(home: map<nat, nat>, c: nat, n: nat)
    ensures HomeIs(Settle(home, c, n), c, n)
  {}

  lemma HomesRemove(pageMap: map<nat, Entry>, home: map<nat, nat>, c: nat)
    requires Homes(pageMap, home) && c in pageMap
    ensures Homes(pageMap - {c}, home - Range(c, c + pageMap[c].count))
  {
    hide HomeIs, Housed, Range;
    HousedRemove(pageMap, home, c);
    forall d | d in pageMap && d != c ensures HomeIs(home - Range(c, c + pageMap[c].count), d, pageMap[d].count) {
      HomesApart(pageMap, home, c, d);
      HomeWithout(home, Range(c, c + pageMap[c].count), d, pageMap[d].count);
    }
  }

  lemma HomeWithout(home: map<nat, nat>, gone: set<nat>, d: nat, m: nat)
    requires HomeIs(home, d, m) && gone !! Range(d, d + m)
    ensures HomeIs(home - gone, d, m)
  {}

  lemma StructureRemove(blocks: seq<Block>, bs: nat, pageMap: map<nat, Entry>, content: map<nat, Content>,
                        home: map<nat, nat>, c: nat)
    requires Structure(blocks, bs, pageMap, content, home) && c in pageMap
    ensures Structure(blocks, bs, pageMap - {c}, content - {c}, home - Range(c, c + pageMap[c].count))
  {
    hide EntryOk, Homes, Range;
    HomesRemove(pageMap, home, c);
  }

  /** Pages without objects are given back. */
  ghost predicate NoEmptyPages(pageMap: map<nat, Entry>, content: map<nat, Content>) {
    forall c :: c in pageMap && c in content && !pageMap[c].large ==> |content[c].page.slots| > 0
  }

  // ---- The index of pages with free space.

  ghost predicate FreeOk(freeMap: set<FreeEntry>, pageMap: map<nat, Entry>, content: map<nat, Content>) {
    && (forall f :: f in freeMap ==>
          f.block in pageMap && !pageMap[f.block].large && f.block in content && f.available > 0
          && f.available == EffectiveFree(content[f.block].page))
    && (forall c :: c in pageMap && !pageMap[c].large && c in content && EffectiveFree(content[c].page) > 0 ==>
          FreeEntry(EffectiveFree(content[c].page), c) in freeMap)
  }

  /** The entry of a page, if it has space. */
  ghost function EntryFor(p: Page, c: nat): set<FreeEntry> {
    if EffectiveFree(p) > 0 then {FreeEntry(EffectiveFree(p), c)} else {}
  }

  lemma FreeSet(freeMap: set<FreeEntry>, pageMap: map<nat, Entry>, content: map<nat, Content>, c: nat, x: Content)
    requires FreeOk(freeMap, pageMap, content) && c in pageMap && !pageMap[c].large && c in content
    ensures FreeOk(freeMap - EntryFor(content[c].page, c) + EntryFor(x.page, c), pageMap, content[c := x])
  {}

  lemma FreeAdd(freeMap: set<FreeEntry>, pageMap: map<nat, Entry>, content: map<nat, Content>, c: nat, e: Entry, x: Content)
    requires FreeOk(freeMap, pageMap, content) && c !in pageMap && c !in content
    ensures FreeOk(freeMap + (if e.large then {} else EntryFor(x.page, c)), pageMap[c := e], content[c := x])
  {}

  lemma FreeRemove(freeMap: set<FreeEntry>, pageMap: map<nat, Entry>, content: map<nat, Content>, c: nat)
    requires FreeOk(freeMap, pageMap, content) && c in pageMap && c in content
    ensures FreeOk(freeMap - (if pageMap[c].large then {} else EntryFor(content[c].page, c)), pageMap - {c}, content - {c})
  {}

  /** Pages without effective free space, which have no entry in the index of free space. */
  ghost function FullPages(pageMap: map<nat, Entry>, freeMap: set<FreeEntry>): set<nat> {
    set c | c in pageMap && !pageMap[c].large && forall f :: f in freeMap ==> f.block != c
  }

  /** At most one page has become full, and it was not. */
  ghost predicate Filled(before: set<nat>, after: set<nat>, c: nat) {
    c !in before && (after == before || after == before + {c})
  }

  lemma OnlyEntry(freeMap: set<FreeEntry>, pageMap: map<nat, Entry>, content: map<nat, Content>, f: FreeEntry)
    requires FreeOk(freeMap, pageMap, content) && f in freeMap
    ensures f.block in pageMap && !pageMap[f.block].large && forall g :: g in freeMap && g.block == f.block ==> g == f
  {
    hide EffectiveFree;
  }

  lemma FullIs(freeMap: set<FreeEntry>, pageMap: map<nat, Entry>, content: map<nat, Content>, c: nat)
    requires FreeOk(freeMap, pageMap, content) && c in pageMap && !pageMap[c].large && c in content && EffectiveFree(content[c].page) >= 0
    ensures c in FullPages(pageMap, freeMap) <==> EffectiveFree(content[c].page) == 0
  {
    hide EffectiveFree;
  }

  /** An entry is replaced, or removed. */
  lemma FullReplaced(pageMap: map<nat, Entry>, freeMap: set<FreeEntry>, f: FreeEntry, available: nat)
    requires f in freeMap && f.block in pageMap && !pageMap[f.block].large
    requires forall g :: g in freeMap && g.block == f.block ==> g == f
    ensures f.block !in FullPages(pageMap, freeMap)
    ensures FullPages(pageMap, freeMap - {f} + {FreeEntry(available, f.block)}) == FullPages(pageMap, freeMap)
    ensures FullPages(pageMap, freeMap - {f}) == FullPages(pageMap, freeMap) + {f.block}
    ensures FullPages(pageMap - {f.block}, freeMap - {f}) == FullPages(pageMap, freeMap)
  {
    var free := freeMap - {f} + {FreeEntry(available, f.block)};
    assert FreeEntry(available, f.block) in free;
    forall c | c in pageMap && c != f.block ensures c in FullPages(pageMap, free) <==> c in FullPages(pageMap, freeMap) {
      assert forall g :: g in free && g.block == c ==> g in freeMap;
      assert forall g :: g in freeMap && g.block == c ==> g in free;
    }
    forall c | c in pageMap && c != f.block ensures c in FullPages(pageMap, freeMap - {f}) <==> c in FullPages(pageMap, freeMap) {
      assert forall g :: g in freeMap && g.block == c ==> g in freeMap - {f};
    }
  }

  /** A page is added, with or without an entry. */
  lemma FullAdded(pageMap: map<nat, Entry>, freeMap: set<FreeEntry>, c: nat, available: nat)
    requires c !in pageMap && forall f :: f in freeMap ==> f.block != c
    ensures FullPages(pageMap[c := Entry(false, 1)], freeMap + {FreeEntry(available, c)}) == FullPages(pageMap, freeMap)
    ensures FullPages(pageMap[c := Entry(false, 1)], freeMap) == FullPages(pageMap, freeMap) + {c}
  {
    var free := freeMap + {FreeEntry(available, c)};
    assert FreeEntry(available, c) in free;
    forall d | d in pageMap ensures d in FullPages(pageMap[c := Entry(false, 1)], free) <==> d in FullPages(pageMap, freeMap) {
      assert forall g :: g in free && g.block == d ==> g in freeMap;
      assert forall g :: g in freeMap ==> g in free;
    }
  }

  /** Large objects do not matter. */
  lemma FullOfLarge(pageMap: map<nat, Entry>, freeMap: set<FreeEntry>, c: nat, n: nat)
    ensures c !in pageMap ==> FullPages(pageMap[c := Entry(true, n)], freeMap) == FullPages(pageMap, freeMap)
    ensures c in pageMap && pageMap[c].large ==> FullPages(pageMap - {c}, freeMap) == FullPages(pageMap, freeMap)
  {}

  // ---- The objects.

  /** `objects` are the objects of all allocations. */
  ghost predicate Flattened(objects: map<Ref, seq<byte>>, pageMap: map<nat, Entry>, content: map<nat, Content>) {
    && (forall r :: r in objects ==>
          && r.block in pageMap && r.block in content && r.large == pageMap[r.block].large
          && r.slot in content[r.block].objects && objects[r] == content[r.block].objects[r.slot])
    && (forall c, i :: c in pageMap && c in content && i in content[c].objects ==> Ref(pageMap[c].large, c, i) in objects)
  }

  lemma FlattenedSet(objects: map<Ref, seq<byte>>, pageMap: map<nat, Entry>, content: map<nat, Content>, c: nat, x: Content, i: nat, d: seq<byte>)
    requires Flattened(objects, pageMap, content) && c in pageMap && c in content
    requires x.objects == content[c].objects[i := d]
    ensures Flattened(objects[Ref(pageMap[c].large, c, i) := d], pageMap, content[c := x])
  {}

  lemma FlattenedDrop(objects: map<Ref, seq<byte>>, pageMap: map<nat, Entry>, content: map<nat, Content>, c: nat, x: Content, i: nat)
    requires Flattened(objects, pageMap, content) && c in pageMap && c in content && x.objects == content[c].objects - {i}
    ensures Flattened(objects - {Ref(pageMap[c].large, c, i)}, pageMap, content[c := x])
  {}

  lemma FlattenedAdd(objects: map<Ref, seq<byte>>, pageMap: map<nat, Entry>, content: map<nat, Content>, c: nat, e: Entry, x: Content)
    requires Flattened(objects, pageMap, content) && c !in pageMap && c !in content && x.objects == map[]
    ensures Flattened(objects, pageMap[c := e], content[c := x])
  {}

  lemma FlattenedRemove(objects: map<Ref, seq<byte>>, pageMap: map<nat, Entry>, content: map<nat, Content>, c: nat)
    requires Flattened(objects, pageMap, content) && c in pageMap && c in content && content[c].objects == map[]
    ensures Flattened(objects, pageMap - {c}, content - {c})
  {}

  // ---- Allocations that are no longer in the index.

  function Within<V>(m: map<nat, V>, s: set<nat>): map<nat, V> {
    map c | c in m && c in s :: m[c]
  }

  ghost function HomeWithin(home: map<nat, nat>, s: set<nat>): map<nat, nat> {
    map x | x in home && home[x] in s :: home[x]
  }

  ghost function Surviving(objects: map<Ref, seq<byte>>, s: set<nat>): map<Ref, seq<byte>> {
    map r | r in objects && r.block in s :: objects[r]
  }

  lemma StructureWithin(blocks: seq<Block>, bs: nat, pageMap: map<nat, Entry>, content: map<nat, Content>, home: map<nat, nat>, s: set<nat>)
    requires Structure(blocks, bs, pageMap, content, home)
    ensures Structure(blocks, bs, Within(pageMap, s), Within(content, s), HomeWithin(home, s))
  {
    hide EntryOk;
    var p, h := Within(pageMap, s), HomeWithin(home, s);
    forall c | c in p ensures p[c].count > 0 && HomeIs(h, c, p[c].count) {
      assert HomeIs(home, c, pageMap[c].count);
    }
  }

  lemma FlattenedWithin(objects: map<Ref, seq<byte>>, pageMap: map<nat, Entry>, content: map<nat, Content>, s: set<nat>)
    requires Flattened(objects, pageMap, content) && NoEmptyPages(pageMap, content)
    ensures Flattened(Surviving(objects, s), Within(pageMap, s), Within(content, s)) && NoEmptyPages(Within(pageMap, s), Within(content, s))
  {}

  lemma AllSurvive(objects: map<Ref, seq<byte>>, pageMap: map<nat, Entry>, content: map<nat, Content>, s: set<nat>)
    requires Flattened(objects, pageMap, content) && pageMap.Keys <= s
    ensures Surviving(objects, s) == objects
  {}

  /** Objects are lost with the entries of their allocations, and entries are lost at the upper end of the index. */
  ghost predicate LosesOnly(pageMap0: map<nat, Entry>, objects0: map<Ref, seq<byte>>, pageMap: map<nat, Entry>, objects: map<Ref, seq<byte>>, stray: set<nat>) {
    && objects == Surviving(objects0, pageMap.Keys) && stray == pageMap.Keys - pageMap0.Keys
    && (forall b :: b in pageMap0 && b in pageMap ==> pageMap[b] == pageMap0[b])
    && (forall b, d :: b in pageMap0 && b in pageMap && d in pageMap0 && d !in pageMap ==> b < d)
  }

  /** Only the entries of `kept` are left in the index, among them perhaps a new one for which there are no blocks. */
  lemma TornState(blocks: seq<Block>, bs: nat, pageMap: map<nat, Entry>, content: map<nat, Content>, home: map<nat, nat>,
                  objects: map<Ref, seq<byte>>, c: nat, e: Entry, kept: set<nat>)
    requires Structure(blocks, bs, pageMap, content, home) && Flattened(objects, pageMap, content) && NoEmptyPages(pageMap, content)
    requires c !in pageMap && kept <= pageMap.Keys + {c}
    requires forall b, d :: b in pageMap && d in pageMap && b in kept && d !in kept ==> b < d
    ensures var p, stray := Within(pageMap[c := e], kept), kept - pageMap.Keys;
            && p.Keys == kept && Structure(blocks, bs, p - stray, Within(content, kept), HomeWithin(home, kept))
            && Flattened(Surviving(objects, kept), p - stray, Within(content, kept)) && NoEmptyPages(p - stray, Within(content, kept))
            && LosesOnly(pageMap, objects, p, Surviving(objects, kept), stray) && HomeWithin(home, kept).Keys <= home.Keys
  {
    hide Structure, Flattened, NoEmptyPages;
    StructureWithin(blocks, bs, pageMap, content, home, kept);
    FlattenedWithin(objects, pageMap, content, kept);
    var p, stray := Within(pageMap[c := e], kept), kept - pageMap.Keys;
    assert p.Keys == kept && p - stray == Within(pageMap, kept);
  }

  // ---- Counters.

  ghost function Weight(objects: map<Ref, seq<byte>>): nat {
    if objects == map[] then 0
    else
      var r :| r in objects;
      |objects[r]| + Weight(objects - {r})
  }

  lemma {:induction false} WeightWithout(objects: map<Ref, seq<byte>>, r: Ref)
    requires r in objects
    ensures Weight(objects) == |objects[r]| + Weight(objects - {r})
    decreases |objects|
  {
    var q :| q in objects && Weight(objects) == |objects[q]| + Weight(objects - {q});
    if q != r {
      WeightWithout(objects - {q}, r);
      WeightWithout(objects - {r}, q);
      assert objects - {q} - {r} == objects - {r} - {q};
    }
  }

  lemma WeightWith(objects: map<Ref, seq<byte>>, r: Ref, d: seq<byte>)
    requires r !in objects
    ensures Weight(objects[r := d]) == Weight(objects) + |d|
  {
    WeightWithout(objects[r := d], r);
    assert objects[r := d] - {r} == objects;
  }

  lemma WeightSet(objects: map<Ref, seq<byte>>, r: Ref, d: seq<byte>)
    requires r in objects && |d| == |objects[r]|
    ensures Weight(objects[r := d]) == Weight(objects)
  {
    WeightWithout(objects, r);
    WeightWithout(objects[r := d], r);
    assert objects[r := d] - {r} == objects - {r};
  }

  // ---- What one operation may touch.

  /**
  From a state with file `b0`, managed blocks `o0` and touchable blocks `m0` to the next one: blocks
  that are managed but not touchable stay so and keep their content.
  */
  ghost predicate Step(b0: seq<Block>, o0: set<nat>, m0: set<nat>, b1: seq<Block>, o1: set<nat>, m1: set<nat>) {
    m0 <= o0 && m1 <= o1 && A.OnlyNew(o0, o1, |b0|) && o0 - m0 == o1 - m1 && A.Kept(b0, b1, m0)
  }

  lemma StepTrans(b0: seq<Block>, o0: set<nat>, m0: set<nat>, b1: seq<Block>, o1: set<nat>, m1: set<nat>,
                  b2: seq<Block>, o2: set<nat>, m2: set<nat>)
    requires Step(b0, o0, m0, b1, o1, m1) && Step(b1, o1, m1, b2, o2, m2)
    ensures Step(b0, o0, m0, b2, o2, m2)
  {}

  lemma StepRefl(b: seq<Block>, o: set<nat>, m: set<nat>)
    requires m <= o
    ensures Step(b, o, m, b, o, m)
  {}

  /** A change to touchable blocks alone. */
  lemma StepWrite(b0: seq<Block>, b1: seq<Block>, o: set<nat>, m: set<nat>, written: set<nat>)
    requires written <= m <= o && A.Kept(b0, b1, written)
    ensures Step(b0, o, m, b1, o, m)
  {}

  /** Blocks `s` are taken from the allocator. */
  lemma StepAllocate(b0: seq<Block>, o0: set<nat>, pool0: set<nat>, own: set<nat>, b1: seq<Block>, o1: set<nat>, pool1: set<nat>, s: set<nat>)
    requires pool0 <= o0 && pool1 <= o1 && own <= o0 - pool0 && A.OnlyNew(o0, o1, |b0|) && A.Kept(b0, b1, pool0)
    requires o1 - pool1 == (o0 - pool0) + s && s !! o0 - pool0
    ensures Step(b0, o0, pool0 + own, b1, o1, pool1 + (own + s)) && own + s <= o1 - pool1 && s !! own
  {}

  /** Blocks `s` are given back to the allocator. */
  lemma StepFree(b0: seq<Block>, o: set<nat>, pool0: set<nat>, own: set<nat>, b1: seq<Block>, pool1: set<nat>, s: set<nat>)
    requires pool0 <= o && pool1 <= o && own <= o - pool0 && s <= own && A.Kept(b0, b1, pool0 + s)
    requires o - pool1 == (o - pool0) - s
    ensures Step(b0, o, pool0 + own, b1, o, pool1 + (own - s)) && own - s <= o - pool1
  {
    hide A.Kept;
    A.KeptRefl(b0, {});
    A.KeptTrans(b0, b0, b1, {}, pool0 + s, pool0 + own);
    assert A.OnlyNew(o, o, |b0|);
    assert pool1 == pool0 + s by {
      assert forall b :: b in o ==> (b in pool1 <==> b !in o - pool1);
    }
  }

  lemma NothingStored(blocks: seq<Block>, bs: nat)
    ensures Structure(blocks, bs, map[], map[], map[]) && FreeOk({}, map[], map[]) && Flattened(map[], map[], map[])
    ensures NoEmptyPages(map[], map[]) && Weight(map[]) == 0
  {}

  lemma PageEntry(c: nat, b: Block, blocks: seq<Block>, bs: nat, x: Content)
    requires c < |blocks| && blocks[c] == b && PageHolds(b, x) && 0 < bs < U32_END
    ensures EntryOk(c, Entry(false, 1), blocks, bs, x)
  {}

  /** The page of an allocation for small objects. */
  lemma PageOf(blocks: seq<Block>, bs: nat, pageMap: map<nat, Entry>, content: map<nat, Content>, home: map<nat, nat>, c: nat)
    requires Structure(blocks, bs, pageMap, content, home) && c in pageMap && !pageMap[c].large
    ensures pageMap[c] == Entry(false, 1) && c in content && c in home && c < |blocks| && PageHolds(blocks[c], content[c])
  {
    hide PageHolds, LargeHolds, Housed;
    assert EntryOk(c, pageMap[c], blocks, bs, content[c]);
    assert HomeIs(home, c, 1);
  }

  lemma WrittenBlock(blocks: seq<Block>, c: nat, b: Block)
    requires c < |blocks|
    ensures A.Kept(blocks, blocks[c := b], Range(c, c + 1))
  {}

  /** Two objects that the heap accepts as small ones can fill a page of 512 bytes completely. */
  lemma FullPage()
    ensures var p := Allocated(Allocated(Page([], 512, 0), 0, 384), 1, 100);
            384 <= 512 * 3 / 4 && Ok(p, 512) && EffectiveFree(p) == 0
  {
    hide Placed, LiveBytes, Cleared, Ok;
    var p0 := Page([], 512, 0);
    FreshPage(512);
    AllocatedOk(p0, 512, 0, 384);
    AllocatedOk(Allocated(p0, 0, 384), 512, 1, 100);
    assert Allocated(Allocated(p0, 0, 384), 1, 100).slots == [Slot(128, 384), Slot(28, 100)];
  }

  // ---- Effects of page operations on the abstract state.

  lemma FlattenedSame(objects: map<Ref, seq<byte>>, pageMap: map<nat, Entry>, content: map<nat, Content>, c: nat, x: Content)
    requires Flattened(objects, pageMap, content) && c in pageMap && c in content && x.objects == content[c].objects
    ensures Flattened(objects, pageMap, content[c := x])
  {}

  lemma NoEmptySet(pageMap: map<nat, Entry>, content: map<nat, Content>, c: nat, x: Content)
    requires NoEmptyPages(pageMap, content) && |x.page.slots| > 0
    ensures NoEmptyPages(pageMap, content[c := x])
  {}

  lemma EntryFound(freeMap: set<FreeEntry>, pageMap: map<nat, Entry>, content: map<nat, Content>, f: FreeEntry)
    requires FreeOk(freeMap, pageMap, content) && f in freeMap
    ensures f.block in pageMap && !pageMap[f.block].large && f.block in content
    ensures f.available > 0 && f.available == EffectiveFree(content[f.block].page) && {f} == EntryFor(content[f.block].page, f.block)
  {}

  lemma EntryIs(p: Page, c: nat, available: nat)
    requires available == EffectiveFree(p)
    ensures EntryFor(p, c) == if available > 0 then {FreeEntry(available, c)} else {}
  {}

  lemma FreeSame(freeMap: set<FreeEntry>, pageMap: map<nat, Entry>, content: map<nat, Content>, c: nat, x: Content)
    requires FreeOk(freeMap, pageMap, content) && c in content && EffectiveFree(x.page) == EffectiveFree(content[c].page)
    ensures FreeOk(freeMap, pageMap, content[c := x])
  {}

  lemma FlattenedNew(objects: map<Ref, seq<byte>>, pageMap: map<nat, Entry>, content: map<nat, Content>, c: nat, i: nat)
    requires Flattened(objects, pageMap, content) && c in pageMap && c in content && i !in content[c].objects
    ensures Ref(pageMap[c].large, c, i) !in objects
  {}

  lemma ShapeSize(slots: seq<Slot>, slots': seq<Slot>)
    requires SameShape(slots, slots')
    ensures |slots| == |slots'|
  {}

  lemma NoEmptyAt(pageMap: map<nat, Entry>, content: map<nat, Content>, c: nat)
    requires NoEmptyPages(pageMap, content) && c in pageMap && c in content && !pageMap[c].large
    ensures |content[c].page.slots| > 0
  {}

  lemma NoEmptyAdd(pageMap: map<nat, Entry>, content: map<nat, Content>, c: nat, e: Entry, x: Content)
    requires NoEmptyPages(pageMap, content) && (e.large || |x.page.slots| > 0)
    ensures NoEmptyPages(pageMap[c := e], content[c := x])
  {}

  // ---- Large objects.

  /** The bytes of an object that is given, or of one that starts out with zeroes. */
  function Initial(bytes: Option<seq<byte>>, size: nat): (data: seq<byte>)
    requires bytes.Some? ==> |bytes.value| == size
    ensures |data| == size
  {
    if bytes.Some? then bytes.value else Zeros(size)
  }

  /** Writing the size and then the bytes stores a large object. */
  lemma LargeWritten(f0: seq<byte>, f1: seq<byte>, run: seq<Block>, bs: nat, data: seq<byte>)
    requires Uniform(run, bs) && 0 < |data| && LARGE_HEADER + |data| < U32_END && |f0| == |f1| == |run| * bs && LARGE_HEADER + |data| <= |f0|
    requires f1 == Splice(f0, 0, LargeImage(data)[..LARGE_HEADER]) && Flat(run, bs) == Splice(f1, LARGE_HEADER, data)
    ensures LargeHolds(run, bs, data)
  {}

  lemma LargeEntry(c: nat, n: nat, blocks: seq<Block>, bs: nat, data: seq<byte>)
    requires 0 < bs < U32_END && n > 0 && c + n <= |blocks| && n == LargeBlocks(|data|, bs) && LargeHolds(blocks[c..c + n], bs, data)
    ensures EntryOk(c, Entry(true, n), blocks, bs, Content(Page([], 0, 0), map[0 := data]))
  {}

  lemma LargeEntryIs(c: nat, e: Entry, blocks: seq<Block>, bs: nat, x: Content)
    requires 0 < bs < U32_END && e.large && e.count > 0 && c + e.count <= |blocks| && x.objects.Keys == {0}
    requires e.count == LargeBlocks(|x.objects[0]|, bs) && LargeHolds(blocks[c..c + e.count], bs, x.objects[0])
    ensures EntryOk(c, e, blocks, bs, x)
  {}

  /** What the blocks of a large object hold. */
  lemma LargeOf(blocks: seq<Block>, bs: nat, pageMap: map<nat, Entry>, content: map<nat, Content>, home: map<nat, nat>, c: nat)
    requires Structure(blocks, bs, pageMap, content, home) && c in pageMap && pageMap[c].large
    ensures c in content && content[c].objects.Keys == {0} && pageMap[c].count > 0 && c + pageMap[c].count <= |blocks|
    ensures 0 < bs < U32_END && pageMap[c].count == LargeBlocks(|content[c].objects[0]|, bs)
    ensures LargeHolds(blocks[c..c + pageMap[c].count], bs, content[c].objects[0])
    ensures Range(c, c + pageMap[c].count) <= home.Keys
  {
    hide PageHolds, LargeHolds;
    assert EntryOk(c, pageMap[c], blocks, bs, content[c]);
    HomeOf(pageMap, home, c);
  }

  /** The header of a large object gives its size, and its bytes follow. */
  lemma LargeRead(run: seq<Block>, bs: nat, data: seq<byte>)
    requires LargeHolds(run, bs, data)
    ensures Decode(Flat(run, bs)[0..LARGE_HEADER]) == |data|
    ensures Flat(run, bs)[LARGE_HEADER..LARGE_HEADER + |data|] == data
  {
    hide Flat, Encode, Decode;
    Pow256Of4();
    var f, image := Flat(run, bs), LargeImage(data);
    assert f[..LARGE_HEADER + |data|][0..LARGE_HEADER] == f[0..LARGE_HEADER];
    assert image[0..LARGE_HEADER] == Encode(|data|, 4);
    assert f[..LARGE_HEADER + |data|][LARGE_HEADER..] == f[LARGE_HEADER..LARGE_HEADER + |data|];
    assert image[LARGE_HEADER..] == data;
    DecodeEncode(|data|, 4);
  }

  /** Overwriting the bytes of a large object. */
  lemma LargeStored(run: seq<Block>, run': seq<Block>, bs: nat, data: seq<byte>, data': seq<byte>)
    requires LargeHolds(run, bs, data) && Uniform(run', bs) && |run'| == |run| && |data'| == |data|
    requires Flat(run', bs) == Splice(Flat(run, bs), LARGE_HEADER, data')
    ensures LargeHolds(run', bs, data')
  {}

  lemma NoEmptySame(pageMap: map<nat, Entry>, content: map<nat, Content>, c: nat, x: Content)
    requires NoEmptyPages(pageMap, content) && c in content && x.page == content[c].page
    ensures NoEmptyPages(pageMap, content[c := x])
  {}
}
