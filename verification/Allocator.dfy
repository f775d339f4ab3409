/**
The extent allocator: best fit over a canonical index of free extents, whose two index trees live
in blocks that the allocator takes from the space it manages.
*/
module Allocator {
  import opened Blocks
  import opened Runs
  import opened FreeSpace
  import opened MetaPool
  import opened Wrappers
  import LinearIo
  import Math

  datatype Error = BadAlloc | BadArgument | OverlappingFree

  /** An index tree: its entries, its height, and the blocks that hold its nodes. */
  datatype Tree = Tree(extents: set<Extent>, height: nat, nodes: set<nat>)

  /** Blocks outside `except` that exist in both states have the same content. */
  ghost predicate Kept(before: seq<Block>, after: seq<Block>, except: set<nat>) {
    |before| <= |after| && forall b :: 0 <= b < |before| && b !in except ==> after[b] == before[b]
  }

  lemma KeptRefl(a: seq<Block>, x: set<nat>)
    ensures Kept(a, a, x)
  {}

  lemma KeptGrown(a: seq<Block>, b: seq<Block>, x: set<nat>)
    requires |a| <= |b| && b[..|a|] == a
    ensures Kept(a, b, x)
  {}

  lemma KeptTrans(a: seq<Block>, b: seq<Block>, c: seq<Block>, x: set<nat>, y: set<nat>, z: set<nat>)
    requires Kept(a, b, x) && Kept(b, c, y) && x <= z && y <= z
    ensures Kept(a, c, z)
  {}

  /** Free and metadata blocks are separate, and all managed blocks lie in the file. */
  ghost predicate Placed(free: set<nat>, meta: set<nat>, owned: set<nat>, fileSize: nat) {
    && (forall b :: b in free ==> b !in meta && b in owned)
    && (forall b :: b in meta ==> b in owned)
    && (forall b :: b in owned ==> b < fileSize)
  }

  /** `s` is handed out: managed, and neither free nor metadata. */
  ghost predicate Away(s: set<nat>, free: set<nat>, meta: set<nat>, owned: set<nat>) {
    forall b :: b in s ==> b in owned && b !in free && b !in meta
  }

  lemma PlacedTake(free: set<nat>, meta: set<nat>, owned: set<nat>, fileSize: nat, x: Extent, take: nat)
    requires Placed(free, meta, owned, fileSize) && Away(x.Blocks(), free, meta, owned) && take <= x.size
    ensures Placed(free, meta + Range(x.block, x.block + take), owned, fileSize)
    ensures Away(Range(x.block + take, x.End()), free, meta + Range(x.block, x.block + take), owned)
    ensures Range(x.block, x.block + take) !! meta
    ensures x.Blocks() == Range(x.block, x.block + take) + Range(x.block + take, x.End())
  {}

  lemma PlacedMore(free: set<nat>, meta: set<nat>, owned: set<nat>, fileSize: nat, s: set<nat>)
    requires Placed(free, meta, owned, fileSize) && Away(s, {}, meta, owned)
    ensures Placed(free + s, meta, owned, fileSize)
  {}

  lemma AwayFromMeta(s: set<nat>, free: set<nat>, meta: set<nat>, owned: set<nat>)
    requires Away(s, free, meta, owned)
    ensures Away(s, {}, meta, owned) && s !! free && s !! meta
  {}

  /** A part of what is handed out is handed out. */
  lemma AwayPart(e: Extent, x: Extent, free: set<nat>, meta: set<nat>, owned: set<nat>)
    requires Away(e.Blocks(), free, meta, owned) && e.block <= x.block && x.End() <= e.End()
    ensures Away(x.Blocks(), free, meta, owned)
  {}

  lemma AwayStays(s: set<nat>, free: set<nat>, free': set<nat>, meta: set<nat>, owned: set<nat>)
    requires Away(s, free, meta, owned) && free' <= free
    ensures Away(s, free', meta, owned)
  {}

  /** Being handed out depends only on free and metadata blocks together. */
  lemma AwayPool(s: set<nat>, free: set<nat>, meta: set<nat>, free': set<nat>, meta': set<nat>, owned: set<nat>)
    requires Away(s, free, meta, owned) && free' + meta' == free + meta
    ensures Away(s, free', meta', owned)
  {}

  lemma PlacedGrow(free: set<nat>, meta: set<nat>, owned: set<nat>, e: Extent)
    requires Placed(free, meta, owned, e.block)
    ensures Placed(free, meta, owned + e.Blocks(), e.End()) && Away(e.Blocks(), free, meta, owned + e.Blocks())
    ensures e.Blocks() !! owned && Count(owned + e.Blocks()) == Count(owned) + e.size
  {
    RangeSize(e.block, e.End());
  }

  lemma PlacedInside(free: set<nat>, meta: set<nat>, owned: set<nat>, fileSize: nat)
    requires Placed(free, meta, owned, fileSize)
    ensures free + meta <= owned && forall b :: b in owned ==> b < fileSize
  {}

  /** Changes confined to new blocks leave all old blocks alone. */
  lemma KeptDropNew(a: seq<Block>, b: seq<Block>, x: set<nat>, e: Extent)
    requires Kept(a, b, x + e.Blocks()) && |a| <= e.block
    ensures Kept(a, b, x)
  {}

  /** Blocks that become managed are new: they lie beyond the `fileSize` blocks there were before. */
  ghost predicate OnlyNew(owned: set<nat>, owned': set<nat>, fileSize: nat) {
    owned <= owned' && forall b :: b in owned' && b !in owned ==> fileSize <= b
  }

  lemma OnlyNewExtent(owned: set<nat>, e: Extent)
    ensures OnlyNew(owned, owned, e.block) && OnlyNew(owned, owned + e.Blocks(), e.block)
  {}

  lemma SameOwned(owned: set<nat>, owned': set<nat>, fileSize: nat, fileSize': nat)
    requires OnlyNew(owned, owned', fileSize) && forall b :: b in owned' ==> b < fileSize'
    ensures fileSize' == fileSize ==> owned' == owned
  {}

  lemma OnlyNewTrans(o: set<nat>, o1: set<nat>, o2: set<nat>, n: nat, n1: nat)
    requires OnlyNew(o, o1, n) && OnlyNew(o1, o2, n1) && n <= n1
    ensures OnlyNew(o, o2, n)
  {}

  /** Changes confined to a later pool were, in the old file, confined to the old pool. */
  lemma KeptInOldPool(a: seq<Block>, b: seq<Block>, owned: set<nat>, pool: set<nat>, owned': set<nat>, pool': set<nat>, x: set<nat>)
    requires Kept(a, b, x + pool') && OnlyNew(owned, owned', |a|)
    requires pool <= x && pool' <= owned' && owned - pool <= x + (owned' - pool')
    ensures Kept(a, b, x)
  {
    forall c | 0 <= c < |a| && c !in x ensures b[c] == a[c] {
      assert c in pool' ==> c in owned' && c in owned && c in owned - pool && c !in owned' - pool';
    }
  }

  lemma SliceKept(a: seq<Block>, b: seq<Block>, except: set<nat>, lo: nat, n: nat)
    requires Kept(a, b, except) && lo + n <= |a| && Range(lo, lo + n) !! except
    ensures lo + n <= |b| && b[lo..lo + n] == a[lo..lo + n]
  {}

  /**
  The effect of a reallocation on what is handed out (`live`) and on the content: the range at
  `block` is replaced by one at `to` that starts with the old content, and nothing else changes
  outside the pool.
  */
  ghost predicate Reallocated(before: seq<Block>, after: seq<Block>, live: set<nat>, live': set<nat>, pool: set<nat>,
                              x: Extent, to: nat, newSize: nat) {
    var k := if x.size < newSize then x.size else newSize;
    && live' == live - x.Blocks() + Range(to, to + newSize)
    && Range(to, to + newSize) !! live - x.Blocks()
    && x.block + k <= |before| && to + k <= |after| && after[to..to + k] == before[x.block..x.block + k]
    && Kept(before, after, pool + x.Blocks())
  }

  /** By how many blocks the file grows for `blocks` more: a power of two, and no less than the minimum. */
  ghost function Chunk(blocks: nat, minChunk: nat): (n: nat)
    requires blocks > 0
    ensures n >= blocks && n >= minChunk
  {
    var n := if blocks < Math.TWO_POW_63 then Math.NextPow2(blocks) else blocks;
    if n < minChunk then minChunk else n
  }

  /**
  Where `request` blocks are taken from: the smallest free extent that is large enough, the first of those that are equally
  small; else the end of the file, together with the free extent there, if any; else nowhere.
  */
  ghost predicate Places(extents: set<Extent>, request: nat, fileSize: nat, canGrow: bool, minChunk: nat, r: Result<nat, Error>, fileSize': nat)
    requires request > 0
  {
    && (forall e :: e in extents && e.size >= request && (forall f :: f in extents && f.size >= request ==> BySize(e, f)) ==>
          r == Success(e.block) && fileSize' == fileSize)
    && ((forall e :: e in extents ==> e.size < request) ==>
          if !canGrow then r == Failure(BadAlloc) && fileSize' == fileSize
          else
            && (forall e :: e in extents && e.End() == fileSize ==> r == Success(e.block) && fileSize' == fileSize + Chunk(request - e.size, minChunk))
            && ((forall e :: e in extents ==> e.End() != fileSize) ==> r == Success(fileSize) && fileSize' == fileSize + Chunk(request, minChunk)))
  }

  /** Only the last extent can end where the file ends. */
  lemma OnlyLastAtEnd(extents: set<Extent>, free: set<nat>, fileSize: nat, last: Extent, e: Extent)
    requires Canonical(extents, free) && (forall b :: b in free ==> b < fileSize) && last in extents && (forall f :: f in extents ==> f.block <= last.block)
    requires e in extents && e.End() == fileSize
    ensures e == last
  {
    RunsApart(free, e.block, e.End(), last.block, last.End());
    assert last.block in free && e.block < e.End() && last.block < last.End();
  }

  lemma OneBestFit(extents: set<Extent>, request: nat)
    ensures forall e, f :: e in extents && f in extents && BySize(e, f) && BySize(f, e) ==> e == f
  {}

  lemma SameStart(extents: set<Extent>, free: set<nat>, e: Extent, f: Extent)
    requires Canonical(extents, free) && e in extents && f in extents && e.block == f.block
    ensures e == f
  {
    RunsApart(free, e.block, e.End(), f.block, f.End());
  }

  lemma FreeInFile(free: set<nat>, meta: set<nat>, owned: set<nat>, fileSize: nat)
    requires Placed(free, meta, owned, fileSize)
    ensures forall b :: b in free ==> b < fileSize
  {}

  /** A free extent next to `x` has `need` blocks. */
  ghost predicate HasRoom(extents: set<Extent>, x: Extent, need: nat) {
    exists e :: e in extents && (Touch(x, e) || Touch(e, x)) && e.size >= need
  }

  /** Where `x` grows in its place, or to the left, and how much larger the file gets. */
  ghost predicate Grows(extents: set<Extent>, x: Extent, newSize: nat, fileSize: nat, minChunk: nat, r: Result<nat, Error>, fileSize': nat)
    requires x.size < newSize
  {
    var need := newSize - x.size;
    && (forall e :: e in extents && Touch(x, e) && e.size >= need ==> r == Success(x.block) && fileSize' == fileSize)
    && (forall e :: e in extents && Touch(e, x) && e.size >= need && (forall f :: f in extents && Touch(x, f) ==> f.size < need) ==>
          r == Success(e.block) && fileSize' == fileSize)
    && (!HasRoom(extents, x, need) && r.Success? ==>
          && (forall e :: e in extents && Touch(x, e) && e.End() == fileSize ==> r == Success(x.block) && fileSize' == fileSize + Chunk(need - e.size, minChunk))
          && (x.End() == fileSize ==> r == Success(x.block) && fileSize' == fileSize + Chunk(need, minChunk)))
  }

  /** The branches by the two neighbours. */
  ghost predicate GrowsBy(left: Option<Extent>, right: Option<Extent>, x: Extent, newSize: nat, fileSize: nat, minChunk: nat, r: Result<nat, Error>, fileSize': nat)
    requires x.size < newSize
  {
    var need := newSize - x.size;
    if right.Some? && Touch(x, right.value) && right.value.size >= need then r == Success(x.block) && fileSize' == fileSize
    else if left.Some? && Touch(left.value, x) && left.value.size >= need then r == Success(left.value.block) && fileSize' == fileSize
    else if right.Some? && Touch(x, right.value) && right.value.End() == fileSize then
      r.Success? ==> r.value == x.block && fileSize' == fileSize + Chunk(need - right.value.size, minChunk)
    else if x.End() == fileSize then r.Success? ==> r.value == x.block && fileSize' == fileSize + Chunk(need, minChunk)
    else true
  }

  lemma GrowsAre(extents: set<Extent>, left: Option<Extent>, right: Option<Extent>, x: Extent, newSize: nat, fileSize: nat, minChunk: nat, r: Result<nat, Error>, fileSize': nat)
    requires x.size < newSize && GrowsBy(left, right, x, newSize, fileSize, minChunk, r, fileSize')
    requires (left.Some? ==> left.value in extents) && (right.Some? ==> right.value in extents && right.value.size > 0)
    requires forall e :: e in extents ==> e.size > 0 && (Touch(e, x) ==> left == Some(e)) && (Touch(x, e) ==> right == Some(e))
    ensures Grows(extents, x, newSize, fileSize, minChunk, r, fileSize')
  {
    hide Chunk;
    var need := newSize - x.size;
    if right.Some? && Touch(x, right.value) && right.value.size >= need {
      assert HasRoom(extents, x, need);
    } else if left.Some? && Touch(left.value, x) && left.value.size >= need {
      assert HasRoom(extents, x, need);
    }
  }

  /** Behind `x` and the free blocks that follow it, the file ends. */
  ghost predicate AtEnd(extents: set<Extent>, x: Extent, fileSize: nat) {
    x.End() == fileSize || exists e :: e in extents && Touch(x, e) && e.End() == fileSize
  }

  /** Why `x` cannot become larger in a file that may not grow: at the end of the file, free space elsewhere does not count. */
  ghost predicate Refuses(extents: set<Extent>, x: Extent, newSize: nat, fileSize: nat) {
    && x.size < newSize && !HasRoom(extents, x, newSize - x.size)
    && (AtEnd(extents, x, fileSize) || forall e :: e in extents ==> e.size < newSize)
  }

  /** The last block of a file cannot become `k` blocks, however many blocks are free at the start of the file. */
  lemma RefusedAtEnd(n: nat, k: nat)
    requires 1 < k <= n
    ensures var extents, x := {Extent(0, n)}, Extent(n + 1, 1);
            && Canonical(extents, Range(0, n)) && x.Blocks() !! Range(0, n)
            && Refuses(extents, x, k, x.End()) && !Refuses(extents, x, k, x.End() + 1)
  {
    hide Range;
    var e := Extent(0, n);
    assert e in {e} && e.size >= k;
    assert forall b :: b in Range(0, n) ==> e in {e} && e.block <= b < e.End();
  }

  /** The two neighbours are the only extents that touch `x`. */
  lemma OnlyNeighbours(extents: set<Extent>, free: set<nat>, x: Extent, left: Option<Extent>, right: Option<Extent>, need: nat, fileSize: nat)
    requires Canonical(extents, free) && Around(extents, x.block, left, right) && x.size > 0 && x.Blocks() !! free
    ensures HasRoom(extents, x, need) <==>
            (right.Some? && Touch(x, right.value) && right.value.size >= need) || (left.Some? && Touch(left.value, x) && left.value.size >= need)
    ensures AtEnd(extents, x, fileSize) <==> x.End() == fileSize || (right.Some? && Touch(x, right.value) && right.value.End() == fileSize)
    ensures forall e :: e in extents ==> e.size > 0 && (Touch(e, x) ==> left == Some(e)) && (Touch(x, e) ==> right == Some(e))
  {
    hide Canonical, Range;
    forall e | e in extents ensures e.size > 0 && (e.End() == x.block ==> left == Some(e)) && (e.block == x.End() ==> right == Some(e)) {
      ExtentIsNonempty(extents, free, e);
      Apart(extents, free, x, left, right, e);
    }
  }

  lemma ReallocatedShorter(before: seq<Block>, after: seq<Block>, live: set<nat>, pool: set<nat>, x: Extent, newSize: nat)
    requires newSize < x.size && x.End() <= |before| && x.Blocks() <= live && live !! pool
    requires Kept(before, after, pool + Range(x.block + newSize, x.End()))
    ensures Reallocated(before, after, live, live - Range(x.block + newSize, x.End()), pool, x, x.block, newSize)
  {
    hide Range;
    RangeSplit(x.block, x.block + newSize, x.End());
    var rest, less := Range(x.block, x.block + newSize), Range(x.block + newSize, x.End());
    assert live - less == live - x.Blocks() + rest;
    assert forall b :: x.block <= b < x.block + newSize ==> b in rest && after[b] == before[b];
    assert after[x.block..x.block + newSize] == before[x.block..x.block + newSize];
  }

  lemma ReallocatedLonger(before: seq<Block>, after: seq<Block>, live: set<nat>, pool: set<nat>, x: Extent, newSize: nat)
    requires x.size < newSize && x.End() <= |before| && x.Blocks() <= live && live !! pool
    requires Range(x.End(), x.block + newSize) !! live && Kept(before, after, pool)
    ensures Reallocated(before, after, live, live + Range(x.End(), x.block + newSize), pool, x, x.block, newSize)
  {
    hide Range;
    RangeSplit(x.block, x.End(), x.block + newSize);
    var mine, more := x.Blocks(), Range(x.End(), x.block + newSize);
    assert live + more == live - mine + (mine + more);
    assert forall b :: x.block <= b < x.End() ==> b in mine && after[b] == before[b];
    assert after[x.block..x.End()] == before[x.block..x.End()];
  }

  lemma ReallocatedSame(blocks: seq<Block>, live: set<nat>, pool: set<nat>, x: Extent)
    requires x.Blocks() <= live && x.End() <= |blocks|
    ensures Reallocated(blocks, blocks, live, live, pool, x, x.block, x.size)
  {}

  /** Moving left into the free extent `l` that ends where `x` starts. */
  lemma LiveAfterMove(owned: set<nat>, pool: set<nat>, l: set<nat>, x: set<nat>, r: set<nat>, s: set<nat>)
    requires l <= pool <= owned && x <= owned - pool && l + x == s + r && s !! r
    ensures owned - (pool - l + r) == (owned - pool) - x + s && s !! (owned - pool) - x && s !! pool - l + r
    ensures x !! pool
  {}

  lemma AwayInFile(x: Extent, free: set<nat>, meta: set<nat>, owned: set<nat>, fileSize: nat)
    requires Placed(free, meta, owned, fileSize) && Away(x.Blocks(), free, meta, owned) && x.size > 0
    ensures x.End() <= fileSize && x.Blocks() <= owned - (free + meta)
  {}

  lemma AwayAcross(l: Extent, x: Extent, rest: Extent, free: set<nat>, meta: set<nat>, owned: set<nat>)
    requires Away(l.Blocks(), free, meta, owned) && Away(x.Blocks(), free, meta, owned)
    requires l.End() == x.block && l.block <= rest.block && rest.End() <= x.End()
    ensures Away(rest.Blocks(), free, meta, owned)
  {
    assert forall b :: b in rest.Blocks() ==> b in l.Blocks() || b in x.Blocks();
  }

  lemma Copied(a: seq<Block>, b: seq<Block>, dest: nat, n: nat)
    requires |a| == |b| && dest + n <= |a|
    requires forall i :: 0 <= i < |a| && !(dest <= i < dest + n) ==> b[i] == a[i]
    ensures Kept(a, b, Range(dest, dest + n))
  {}

  lemma MovedLeft(before: seq<Block>, b1: seq<Block>, b2: seq<Block>, after: seq<Block>,
                  owned: set<nat>, pool: set<nat>, meta: set<nat>, left: Extent, x: Extent, newSize: nat, rest: Extent)
    requires left.Blocks() <= pool <= owned && x.Blocks() <= owned - pool && meta <= pool && x.size > 0
    requires left.End() == x.block && x.size < newSize <= left.size + x.size && x.End() <= |before| == |b1| == |b2|
    requires rest == Extent(left.block + newSize, left.size + x.size - newSize)
    requires Kept(before, b1, meta) && Kept(b1, b2, Range(left.block, left.block + x.size))
    requires b2[left.block..left.block + x.size] == b1[x.block..x.End()]
    requires Kept(b2, after, pool - left.Blocks() + rest.Blocks())
    ensures Reallocated(before, after, owned - pool, owned - (pool - left.Blocks() + rest.Blocks()), pool, x, left.block, newSize)
  {
    hide Range, Kept;
    RangeSplit(left.block, x.block, x.End());
    RangeSplit(left.block, rest.block, x.End());
    RangeSplit(left.block, left.block + x.size, rest.block);
    var s := Range(left.block, rest.block);
    LiveAfterMove(owned, pool, left.Blocks(), x.Blocks(), rest.Blocks(), s);
    SliceKept(before, b1, meta, x.block, x.size);
    SliceKept(b2, after, pool - left.Blocks() + rest.Blocks(), left.block, x.size);
    KeptTrans(before, b1, b2, meta, Range(left.block, left.block + x.size), pool + x.Blocks());
    KeptTrans(before, b2, after, pool + x.Blocks(), pool - left.Blocks() + rest.Blocks(), pool + x.Blocks());
  }

  lemma AwayIsLive(s: set<nat>, free: set<nat>, meta: set<nat>, owned: set<nat>)
    ensures Away(s, free, meta, owned) <==> s <= owned - (free + meta)
  {}

  lemma AwayFromFree(s: set<nat>, free: set<nat>, meta: set<nat>, owned: set<nat>)
    requires Away(s, free, meta, owned)
    ensures s !! free
  {}

  lemma LiveInFile(to: nat, n: nat, owned: set<nat>, fileSize: nat)
    requires n > 0 && Range(to, to + n) <= owned && forall b :: b in owned ==> b < fileSize
    ensures to + n <= fileSize
  {}

  /** A reallocation that follows a step which only touched the pool. */
  lemma ReallocatedLater(before: seq<Block>, b1: seq<Block>, after: seq<Block>, live: set<nat>, live': set<nat>,
                         owned: set<nat>, pool: set<nat>, owned1: set<nat>, pool1: set<nat>, x: Extent, to: nat, newSize: nat)
    requires Kept(before, b1, pool) && OnlyNew(owned, owned1, |before|) && pool1 <= owned1
    requires live == owned - pool == owned1 - pool1 && x.Blocks() <= live && x.End() <= |before|
    requires Reallocated(b1, after, live, live', pool1, x, to, newSize)
    ensures Reallocated(before, after, live, live', pool, x, to, newSize)
  {}

  lemma MovedAway(before: seq<Block>, b1: seq<Block>, b2: seq<Block>, after: seq<Block>,
                  owned: set<nat>, pool: set<nat>, owned1: set<nat>, pool1: set<nat>, x: Extent, to: nat, newSize: nat)
    requires 0 < x.size < newSize && x.Blocks() <= owned - pool && x.End() <= |before| <= |b1| == |b2|
    requires to + x.size <= |b1| && pool1 <= owned1 && OnlyNew(owned, owned1, |before|)
    requires Kept(before, b1, pool)
    requires owned1 - pool1 == (owned - pool) + Range(to, to + newSize) && Range(to, to + newSize) !! owned - pool
    requires Kept(b1, b2, Range(to, to + x.size)) && b2[to..to + x.size] == b1[x.block..x.End()]
    requires Kept(b2, after, pool1 + x.Blocks())
    ensures Reallocated(before, after, owned - pool, (owned1 - pool1) - x.Blocks(), pool, x, to, newSize)
  {
    hide OnlyNew, Kept, Range;
    RangeSplit(to, to + x.size, to + newSize);
    var s, e := Range(to, to + newSize), pool + x.Blocks();
    SliceKept(before, b1, pool, x.block, x.size);
    SliceKept(b2, after, pool1 + x.Blocks(), to, x.size);
    KeptTrans(before, b1, b2, pool, Range(to, to + x.size), e + (pool1 + s));
    KeptTrans(before, b2, after, e + (pool1 + s), pool1 + x.Blocks(), e + (pool1 + s));
    KeptInOldPool(before, after, owned, pool, owned1, pool1 + s, e);
  }

  /**
  Bookkeeping of a hand-out: blocks `e` leave the pool and new blocks `n` are added to the file;
  of these, `r` goes (back) to the pool and `s` is handed out.
  */
  lemma LiveAfter(owned: set<nat>, pool: set<nat>, e: set<nat>, n: set<nat>, r: set<nat>, s: set<nat>)
    requires e <= pool <= owned && n !! owned && e + n == s + r && s !! r
    ensures (owned + n) - (pool - e + r) == (owned - pool) + s && s !! (owned - pool)
  {}

  lemma SplitAtEnd(lo: nat, start: nat, mid: nat, hi: nat)
    requires lo <= start <= mid <= hi
    ensures Range(lo, start) + Range(start, hi) == Range(lo, mid) + Range(mid, hi) && Range(lo, mid) !! Range(mid, hi)
    ensures lo == start ==> Range(lo, start) == {}
  {}

  lemma PlacedAdd(free: set<nat>, meta: set<nat>, owned: set<nat>, fileSize: nat, e: Extent)
    requires Placed(free, meta, owned, fileSize) && e.Blocks() !! owned && e.End() <= fileSize
    ensures Placed(free, meta, owned + e.Blocks(), fileSize) && Away(e.Blocks(), free, meta, owned + e.Blocks())
    ensures Count(owned + e.Blocks()) == Count(owned) + e.size
  {
    RangeSize(e.block, e.End());
  }

  lemma PlacedCounts(free: set<nat>, meta: set<nat>, owned: set<nat>, fileSize: nat)
    requires Placed(free, meta, owned, fileSize)
    ensures free !! meta && |owned| == |free| + |meta| + |owned - (free + meta)|
  {}

  lemma FiveClasses(spare: seq<nat>, nodes: set<nat>, others: set<nat>, meta: set<nat>, free: set<nat>, owned: set<nat>)
    requires Split(spare, nodes, others, meta) && free !! meta && free + meta <= owned
    ensures owned == free + Elements(spare) + nodes + others + (owned - (free + meta))
    ensures free !! Elements(spare) !! nodes !! others !! (owned - (free + meta))
  {}

  lemma EmptyExtent(x: Extent)
    requires x.size == 0
    ensures x.Blocks() == {}
  {}

  lemma PlacedAllocate(free: set<nat>, meta: set<nat>, owned: set<nat>, fileSize: nat, s: set<nat>)
    requires Placed(free, meta, owned, fileSize) && s <= free
    ensures Placed(free - s, meta, owned, fileSize) && Away(s, free - s, meta, owned)
    ensures (free - s) + meta == free + meta - s
  {}

  lemma PlacedDrop(free: set<nat>, meta: set<nat>, owned: set<nat>, fileSize: nat, b: nat)
    requires Placed(free, meta, owned, fileSize) && b in meta
    ensures Placed(free, meta - {b}, owned, fileSize) && Away({b}, free, meta - {b}, owned)
  {}

  const REQUIRED_TOTAL := 6

  class Allocator {
    const engine: LinearIo.Engine
    var freelist: seq<nat>
    var byPosition: Tree
    var bySize: Tree
    var metaTotal: nat
    var metaFree: nat
    var dataTotal: nat
    var dataFree: nat
    var canGrow: bool
    var minChunk: nat

    /** The free blocks, the blocks used for metadata, and all blocks the allocator manages. */
    ghost var free: set<nat>
    ghost var meta: set<nat>
    ghost var owned: set<nat>

    /** The free extents that the last allocation could choose from. */
    ghost var choice: set<Extent>

    ghost predicate MetaOk()
      reads this
    {
      Split(freelist, byPosition.nodes, bySize.nodes, meta) && metaFree == |freelist| && metaTotal == Count(meta)
    }

    ghost predicate SpaceOk()
      reads this
    {
      Canonical(byPosition.extents, free) && bySize.extents == byPosition.extents && dataFree == Count(free)
    }

    ghost predicate PlacedOk()
      reads this, engine
    {
      Placed(free, meta, owned, |engine.blocks|)
    }

    ghost predicate Core()
      reads this, engine
    {
      engine.Valid() && MetaOk() && SpaceOk() && PlacedOk() && minChunk > 0
    }

    ghost predicate Valid()
      reads this, engine
    {
      Core() && dataTotal == Count(owned)
    }

    /** The blocks handed out and not given back. */
    ghost function Live(): set<nat>
      reads this
    {
      owned - (free + meta)
    }

    /** The managed blocks that are not handed out. */
    ghost function Pool(): set<nat>
      reads this
    {
      free + meta
    }

    /** The spare blocks that the next insertion into both trees may need. */
    function RequiredFree(): nat
      reads this
    {
      byPosition.height + 1 + bySize.height + 1
    }

    /** The reserve of spare blocks needs no change. */
    ghost predicate Settled()
      reads this
    {
      var needed := byPosition.height + 1 + bySize.height + 1;
      metaFree >= needed && (metaFree == needed || metaTotal <= 6)
    }

    function NeededMetadata(): nat
      reads this
    {
      var total := if metaTotal < REQUIRED_TOTAL then REQUIRED_TOTAL - metaTotal else 0;
      var spare := if metaFree < RequiredFree() then RequiredFree() - metaFree else 0;
      if spare < total then total else spare
    }

    constructor (engine: LinearIo.Engine, canGrow: bool, minChunk: nat)
      requires engine.Valid() && minChunk > 0
      ensures Valid() && owned == {} && this.engine == engine && this.canGrow == canGrow && this.minChunk == minChunk
    {
      this.engine, this.canGrow, this.minChunk := engine, canGrow, minChunk;
      freelist, byPosition, bySize := [], Tree({}, 0, {}), Tree({}, 0, {});
      metaTotal, metaFree, dataTotal, dataFree := 0, 0, 0, 0;
      free, meta, owned, choice := {}, {}, {}, {};
    }

    // ---- The metadata pool and the two trees.

    /** The blocks of the trees and of the spare list are rewritten in ways that do not matter here. */
    method Scribble(blocks: set<nat>)
      requires engine.Valid()
      modifies engine
      ensures engine.Valid() && |engine.blocks| == |old(engine.blocks)|
      ensures Kept(old(engine.blocks), engine.blocks, blocks)
    {
      ghost var before := engine.blocks;
      var i := 0;
      while i < |engine.blocks|
        invariant engine.Valid() && |engine.blocks| == |before|
        invariant Kept(before, engine.blocks, blocks)
      {
        var content: Block := *;
        if i in blocks && |content| == engine.blockSize {
          engine.blocks := engine.blocks[i := content];
        }
        i := i + 1;
      }
    }

    /** Takes the top spare block for a tree node. */
    method AllocateMetadataBlock(ghost nodes: set<nat>, ghost others: set<nat>) returns (b: nat)
      requires Split(freelist, nodes, others, meta) && metaFree == |freelist| && metaFree > 0
      modifies this`freelist, this`metaFree
      ensures Split(freelist, nodes + {b}, others, meta) && metaFree == |freelist|
      ensures freelist + [b] == old(freelist)
    {
      PopToNodes(freelist, nodes, others, meta);
      b := freelist[|freelist| - 1];
      freelist := freelist[..|freelist| - 1];
      metaFree := metaFree - 1;
    }

    /** Puts a block that is no longer a tree node on the spare list. */
    method FreeMetadataBlock(b: nat, ghost nodes: set<nat>, ghost others: set<nat>)
      requires Split(freelist, nodes, others, meta) && metaFree == |freelist| && b in nodes
      modifies this`freelist, this`metaFree
      ensures Split(freelist, nodes - {b}, others, meta) && metaFree == |freelist|
      ensures freelist == old(freelist) + [b]
    {
      PushFromNodes(freelist, nodes, others, meta, b);
      freelist := freelist + [b];
      metaFree := metaFree + 1;
    }

    /** Inserts into a tree. Any number of splits up to `height + 1` may happen on the way. */
    method TreeInsert(t: Tree, e: Extent, ghost others: set<nat>) returns (t': Tree)
      requires engine.Valid() && Split(freelist, t.nodes, others, meta)
      requires metaFree == |freelist| && metaFree >= t.height + 1
      modifies this`freelist, this`metaFree, engine
      ensures engine.Valid() && Split(freelist, t'.nodes, others, meta)
      ensures metaFree == |freelist| && metaFree >= old(metaFree) - (t.height + 1)
      ensures t'.extents == t.extents + {e} && t.height <= t'.height <= t.height + 1
      ensures |engine.blocks| == |old(engine.blocks)| && Kept(old(engine.blocks), engine.blocks, meta)
    {
      var splits: nat, grows: bool := *, *;
      splits := if splits <= t.height + 1 then splits else 0;
      var nodes, i := t.nodes, 0;
      while i < splits
        modifies this`freelist, this`metaFree
        invariant 0 <= i <= splits
        invariant Split(freelist, nodes, others, meta)
        invariant metaFree == |freelist| && metaFree == old(metaFree) - i
      {
        var b := AllocateMetadataBlock(nodes, others);
        nodes := nodes + {b};
        i := i + 1;
      }
      t' := Tree(t.extents + {e}, if grows then t.height + 1 else t.height, nodes);
      Scribble(nodes);
    }

    /** Erases from a tree. Any of its nodes may be merged away, and it may get lower. */
    method TreeErase(t: Tree, e: Extent, ghost others: set<nat>) returns (t': Tree)
      requires engine.Valid() && Split(freelist, t.nodes, others, meta) && metaFree == |freelist|
      modifies this`freelist, this`metaFree, engine
      ensures engine.Valid() && Split(freelist, t'.nodes, others, meta)
      ensures metaFree == |freelist| && metaFree >= old(metaFree)
      ensures t'.extents == t.extents - {e} && t'.height <= t.height
      ensures |engine.blocks| == |old(engine.blocks)| && Kept(old(engine.blocks), engine.blocks, meta)
    {
      var merged: set<nat>, height: nat := *, *;
      merged := merged * t.nodes;
      var nodes := t.nodes;
      while merged != {}
        invariant merged <= nodes
        invariant Split(freelist, nodes, others, meta)
        invariant metaFree == |freelist| && metaFree >= old(metaFree)
        decreases merged
        modifies this`freelist, this`metaFree
      {
        var b :| b in merged;
        FreeMetadataBlock(b, nodes, others);
        nodes, merged := nodes - {b}, merged - {b};
      }
      t' := Tree(t.extents - {e}, if height <= t.height then height else t.height, nodes);
      Scribble(t.nodes);
    }

    ghost predicate PoolOk()
      reads this, engine
    {
      engine.Valid() && Split(freelist, byPosition.nodes, bySize.nodes, meta) && metaFree == |freelist|
    }

    /** Erases an entry from both trees. */
    method EraseBoth(e: Extent)
      requires PoolOk()
      modifies this`freelist, this`metaFree, this`byPosition, this`bySize, engine
      ensures PoolOk() && metaFree >= old(metaFree) && RequiredFree() <= old(RequiredFree())
      ensures byPosition.extents == old(byPosition.extents) - {e} && bySize.extents == old(bySize.extents) - {e}
      ensures |engine.blocks| == |old(engine.blocks)| && Kept(old(engine.blocks), engine.blocks, meta)
    {
      byPosition := TreeErase(byPosition, e, bySize.nodes);
      SplitSwap(freelist, byPosition.nodes, bySize.nodes, meta);
      bySize := TreeErase(bySize, e, byPosition.nodes);
      SplitSwap(freelist, bySize.nodes, byPosition.nodes, meta);
    }

    /** Inserts an entry into both trees; the spare blocks suffice for both insertions. */
    method InsertBoth(e: Extent)
      requires PoolOk() && metaFree >= RequiredFree()
      modifies this`freelist, this`metaFree, this`byPosition, this`bySize, engine
      ensures PoolOk() && metaFree >= old(metaFree) - old(RequiredFree()) && RequiredFree() <= old(RequiredFree()) + 2
      ensures byPosition.extents == old(byPosition.extents) + {e} && bySize.extents == old(bySize.extents) + {e}
      ensures |engine.blocks| == |old(engine.blocks)| && Kept(old(engine.blocks), engine.blocks, meta)
    {
      byPosition := TreeInsert(byPosition, e, bySize.nodes);
      SplitSwap(freelist, byPosition.nodes, bySize.nodes, meta);
      bySize := TreeInsert(bySize, e, byPosition.nodes);
      SplitSwap(freelist, bySize.nodes, byPosition.nodes, meta);
    }

    /** Removes a free extent from both trees. */
    method AllocateExtent(e: Extent)
      requires Core() && e in byPosition.extents
      modifies this`freelist, this`metaFree, this`byPosition, this`bySize, this`dataFree, this`free, engine
      ensures Core() && free == old(free) - e.Blocks() && e.Blocks() <= old(free) && Pool() == old(Pool()) - e.Blocks()
      ensures byPosition.extents == old(byPosition.extents) - {e}
      ensures metaFree >= old(metaFree) && RequiredFree() <= old(RequiredFree())
      ensures dataFree == old(dataFree) - e.size && Away(e.Blocks(), free, meta, owned)
      ensures |engine.blocks| == |old(engine.blocks)| && Kept(old(engine.blocks), engine.blocks, meta)
    {
      hide Split, Canonical, Uniform, Kept, Range, Placed, Away, Count;
      EraseKeepsCanonical(byPosition.extents, free, e);
      PlacedAllocate(free, meta, owned, |engine.blocks|, e.Blocks());
      EraseBoth(e);
      dataFree := dataFree - e.size;
      free := free - e.Blocks();
    }

    /** Inserts an extent into both trees, merged with the neighbours it touches. */
    method FreeInternal(x: Extent) returns (r: Outcome<Error>)
      requires Core() && x.size > 0 && Away(x.Blocks(), {}, meta, owned)
      requires metaFree >= RequiredFree()
      modifies this`freelist, this`metaFree, this`byPosition, this`bySize, this`dataFree, this`free, engine
      ensures Core() && (r.Pass? <==> x.Blocks() !! old(free))
      ensures r.Pass? ==> free == old(free) + x.Blocks() && dataFree == old(dataFree) + x.size
      ensures r.Fail? ==> r == Fail(OverlappingFree) && free == old(free) && byPosition == old(byPosition) &&
                          bySize == old(bySize) && freelist == old(freelist) && engine.blocks == old(engine.blocks)
      ensures |engine.blocks| == |old(engine.blocks)| && Kept(old(engine.blocks), engine.blocks, meta)
    {
      hide Split, Canonical, Uniform, Around, Range, NotJoined, Placed, Away, Count;
      var left, right := Neighbours(byPosition.extents, x.block);
      OverlapIsFound(byPosition.extents, free, x, left, right);
      var entry := x;
      if right.Some? {
        if Overlap(entry, right.value) {
          return Fail(OverlappingFree);
        }
        if Touch(entry, right.value) {
          entry := Extent(entry.block, entry.size + right.value.size);
        }
      }
      if left.Some? {
        if Overlap(entry, left.value) {
          return Fail(OverlappingFree);
        }
        if Touch(left.value, entry) {
          entry := Extent(left.value.block, entry.size + left.value.size);
        }
      }
      assert entry == Joined(x, left, right);
      JoinKeepsCanonical(byPosition.extents, free, x, left, right);
      PlacedMore(free, meta, owned, |engine.blocks|, x.Blocks());
      Merge(x, left, right, entry);
      return Pass;
    }

    /** Replaces the neighbours that `x` touches by the merged entry. */
    method Merge(x: Extent, left: Option<Extent>, right: Option<Extent>, entry: Extent)
      requires PoolOk() && metaFree >= RequiredFree() && bySize.extents == byPosition.extents
      requires entry == Joined(x, left, right)
      modifies this`freelist, this`metaFree, this`byPosition, this`bySize, this`dataFree, this`free, engine
      ensures PoolOk() && bySize.extents == byPosition.extents
      ensures byPosition.extents == NotJoined(old(byPosition.extents), x, left, right) + {entry}
      ensures free == old(free) + x.Blocks() && dataFree == old(dataFree) + x.size
      ensures |engine.blocks| == |old(engine.blocks)| && Kept(old(engine.blocks), engine.blocks, meta)
    {
      if right.Some? && Touch(x, right.value) {
        EraseBoth(right.value);
      }
      if left.Some? && Touch(left.value, x) {
        EraseBoth(left.value);
      }
      assert byPosition.extents == NotJoined(old(byPosition.extents), x, left, right);
      InsertBoth(entry);
      free, dataFree := free + x.Blocks(), dataFree + x.size;
    }

    // ---- Keeping enough spare blocks.

    method PushAll(lo: nat, n: nat)
      modifies this`freelist
      ensures freelist == old(freelist) + Descending(lo, n)
    {
      var i := n;
      assert old(freelist) + [] == old(freelist);
      while i > 0
        invariant 0 <= i <= n && freelist == old(freelist) + Descending(lo + i, n - i)
      {
        i := i - 1;
        freelist := freelist + [lo + i];
      }
    }

    /** Pushes [lo, lo + n) on the spare list, in reverse, so that the lowest ends up on top. */
    method PushSpare(lo: nat, n: nat)
      requires PoolOk() && Range(lo, lo + n) !! meta
      modifies this`freelist, this`metaFree, this`meta, engine
      ensures PoolOk() && freelist == old(freelist) + Descending(lo, n) && metaFree == old(metaFree) + n
      ensures meta == old(meta) + Range(lo, lo + n)
      ensures |engine.blocks| == |old(engine.blocks)| && Kept(old(engine.blocks), engine.blocks, meta)
    {
      hide Range, Uniform;
      PushNewRange(freelist, byPosition.nodes, bySize.nodes, meta, lo, n);
      PushAll(lo, n);
      metaFree := metaFree + n;
      meta := meta + Range(lo, lo + n);
      Scribble(set b | b in freelist);
    }

    /** Turns the first `needed` blocks of an extent into spare blocks. */
    method TakeMetadata(x: Extent, needed: nat) returns (rest: Extent)
      requires Core() && Away(x.Blocks(), free, meta, owned)
      modifies this`freelist, this`metaFree, this`metaTotal, this`meta, engine
      ensures Core()
      ensures var take := if x.size < needed then x.size else needed;
              && rest == Extent(x.block + take, x.size - take)
              && meta == old(meta) + Range(x.block, x.block + take)
              && metaFree == old(metaFree) + take && metaTotal == old(metaTotal) + take
              && freelist == old(freelist) + Descending(x.block, take)
      ensures Away(rest.Blocks(), free, meta, owned)
      ensures |engine.blocks| == |old(engine.blocks)| && Kept(old(engine.blocks), engine.blocks, meta)
    {
      hide Canonical, Uniform, Split, Kept, Range, Placed, Away, Count;
      var take := if x.size < needed then x.size else needed;
      PlacedTake(free, meta, owned, |engine.blocks|, x, take);
      RangeSize(x.block, x.block + take);
      CountUnion(meta, Range(x.block, x.block + take));
      PushSpare(x.block, take);
      metaTotal := metaTotal + take;
      rest := Extent(x.block + take, x.size - take);
    }

    /** Gives surplus spare blocks back to the free space. */
    method Drain()
      requires Core()
      modifies this`freelist, this`metaFree, this`metaTotal, this`byPosition, this`bySize, this`dataFree, this`free, this`meta, engine
      ensures Core() && Pool() == old(Pool())
      ensures metaFree <= RequiredFree() || metaTotal <= REQUIRED_TOTAL
      ensures metaTotal == old(metaTotal) || REQUIRED_TOTAL <= metaTotal < old(metaTotal)
      ensures old(metaFree <= RequiredFree() || metaTotal <= REQUIRED_TOTAL) ==> unchanged(this) && unchanged(engine)
      ensures |engine.blocks| == |old(engine.blocks)| && Kept(old(engine.blocks), engine.blocks, old(Pool()))
    {
      hide Canonical, Uniform, Split, Range, Kept, Placed, Away, Count;
      KeptRefl(engine.blocks, Pool());
      while metaFree > RequiredFree() && metaTotal > REQUIRED_TOTAL
        invariant Core() && Pool() == old(Pool())
        invariant metaTotal == old(metaTotal) || REQUIRED_TOTAL <= metaTotal < old(metaTotal)
        invariant old(metaFree <= RequiredFree() || metaTotal <= REQUIRED_TOTAL) ==> unchanged(this) && unchanged(engine)
        invariant |engine.blocks| == |old(engine.blocks)| && Kept(old(engine.blocks), engine.blocks, old(Pool()))
        decreases metaTotal
      {
        ghost var blocks := engine.blocks;
        DrainOne();
        KeptTrans(old(engine.blocks), blocks, engine.blocks, old(Pool()), old(Pool()), old(Pool()));
      }
    }

    method DrainOne()
      requires Core() && metaFree > RequiredFree()
      modifies this`freelist, this`metaFree, this`metaTotal, this`byPosition, this`bySize, this`dataFree, this`free, this`meta, engine
      ensures Core() && Pool() == old(Pool()) && metaTotal == old(metaTotal) - 1
      ensures |engine.blocks| == |old(engine.blocks)| && Kept(old(engine.blocks), engine.blocks, old(Pool()))
    {
      hide Canonical, Uniform, Split, Range, Placed, Away, Kept, Count;
      var b := freelist[|freelist| - 1];
      OneBlock(b);
      PopAway(freelist, byPosition.nodes, bySize.nodes, meta);
      PlacedDrop(free, meta, owned, |engine.blocks|, b);
      AwayFromMeta({b}, free, meta - {b}, owned);
      freelist := freelist[..|freelist| - 1];
      metaFree, metaTotal := metaFree - 1, metaTotal - 1;
      meta := meta - {b};
      var r := FreeInternal(Extent(b, 1));
      KeptRefl(old(engine.blocks), {});
      KeptTrans(old(engine.blocks), old(engine.blocks), engine.blocks, {}, meta, old(Pool()));
    }

    /** Takes the first free extent, fills the spare list from it and puts the rest back. */
    method FillStep()
      requires Core() && metaFree < RequiredFree() && byPosition.extents != {}
      modifies this`freelist, this`metaFree, this`metaTotal, this`byPosition, this`bySize, this`dataFree, this`free, this`meta, engine
      ensures Core() && Pool() == old(Pool()) && dataFree < old(dataFree) && metaTotal >= old(metaTotal)
      ensures forall e :: e in old(byPosition.extents) && (forall f :: f in old(byPosition.extents) ==> e.block <= f.block) ==>
                metaTotal == old(metaTotal) + Least(e.size, old(NeededMetadata()))
      ensures |engine.blocks| == |old(engine.blocks)| && Kept(old(engine.blocks), engine.blocks, old(Pool()))
    {
      hide Canonical, Uniform, Split, Range, Kept, Placed, Away, Count;
      var needed := NeededMetadata();
      var front := First(byPosition.extents);
      forall e | e in byPosition.extents && e.block == front.block ensures e == front {
        SameStart(byPosition.extents, free, e, front);
      }
      ExtentIsNonempty(byPosition.extents, free, front);
      AllocateExtent(front);
      ghost var blocks1 := engine.blocks;
      PlacedTake(free, meta, owned, |engine.blocks|, front, if front.size < needed then front.size else needed);
      var rest := TakeMetadata(front, needed);
      KeptTrans(old(engine.blocks), blocks1, engine.blocks, old(meta), meta, old(Pool()));
      ghost var blocks2 := engine.blocks;
      if rest.size > 0 {
        AwayFromMeta(rest.Blocks(), free, meta, owned);
        var r := FreeInternal(rest);
        KeptTrans(old(engine.blocks), blocks2, engine.blocks, old(Pool()), meta, old(Pool()));
      }
    }

    /** Fills the spare list until it covers the next insertion, or until no free space is left. */
    method Fill()
      requires Core()
      modifies this`freelist, this`metaFree, this`metaTotal, this`byPosition, this`bySize, this`dataFree, this`free, this`meta, engine
      ensures Core() && Pool() == old(Pool())
      ensures (metaFree >= RequiredFree() || byPosition.extents == {}) && metaTotal >= old(metaTotal)
      ensures old(metaFree >= RequiredFree()) ==> unchanged(this) && unchanged(engine)
      ensures |engine.blocks| == |old(engine.blocks)| && Kept(old(engine.blocks), engine.blocks, old(Pool()))
    {
      hide Canonical, Uniform, Split, Range, Kept, Placed, Away, Count;
      KeptRefl(engine.blocks, Pool());
      while metaFree < RequiredFree()
        invariant Core() && Pool() == old(Pool()) && metaTotal >= old(metaTotal)
        invariant old(metaFree >= RequiredFree()) ==> unchanged(this) && unchanged(engine)
        invariant |engine.blocks| == |old(engine.blocks)| && Kept(old(engine.blocks), engine.blocks, old(Pool()))
        decreases dataFree
      {
        if byPosition.extents == {} {
          break;
        }
        ghost var blocks := engine.blocks;
        FillStep();
        KeptTrans(old(engine.blocks), blocks, engine.blocks, old(Pool()), old(Pool()), old(Pool()));
      }
    }

    /** Restores the reserve of spare blocks. Free and metadata blocks together stay the same. */
    method FixFreelist()
      requires Core()
      modifies this`freelist, this`metaFree, this`metaTotal, this`byPosition, this`bySize, this`dataFree, this`free, this`meta, engine
      ensures Core() && Pool() == old(Pool())
      ensures metaFree >= RequiredFree() || byPosition.extents == {}
      ensures metaTotal >= old(metaTotal) || metaTotal >= REQUIRED_TOTAL
      ensures old(Settled()) ==> unchanged(this) && unchanged(engine)
      ensures |engine.blocks| == |old(engine.blocks)| && Kept(old(engine.blocks), engine.blocks, old(Pool()))
    {
      hide Canonical, Uniform, Split, Range, Kept, Placed, Away, Count;
      Drain();
      ghost var blocks := engine.blocks;
      Fill();
      KeptTrans(old(engine.blocks), blocks, engine.blocks, old(Pool()), old(Pool()), old(Pool()));
    }

    // ---- The operations.

    /** Takes what the spare list needs from an extent and frees the rest. */
    method ReleaseTop(x: Extent)
      requires Core() && x.size > 0 && Away(x.Blocks(), free, meta, owned)
      modifies this`freelist, this`metaFree, this`metaTotal, this`byPosition, this`bySize, this`dataFree, this`free, this`meta, engine
      ensures Core() && Pool() == old(Pool()) + x.Blocks()
      ensures metaTotal == old(metaTotal) + (if x.size < old(NeededMetadata()) then x.size else old(NeededMetadata()))
      ensures |engine.blocks| == |old(engine.blocks)|
      ensures Kept(old(engine.blocks), engine.blocks, old(Pool()) + x.Blocks())
    {
      hide Canonical, Uniform, Split, Range, Kept, Placed, Away, Count;
      var needed := NeededMetadata();
      PlacedTake(free, meta, owned, |engine.blocks|, x, if x.size < needed then x.size else needed);
      KeptRefl(engine.blocks, {});
      var rest := TakeMetadata(x, needed);
      KeptTrans(old(engine.blocks), old(engine.blocks), engine.blocks, {}, meta, old(Pool()) + x.Blocks());
      ghost var blocks1 := engine.blocks;
      if rest.size > 0 {
        AwayFromMeta(rest.Blocks(), free, meta, owned);
        var r := FreeInternal(rest);
        KeptTrans(old(engine.blocks), blocks1, engine.blocks, old(Pool()) + x.Blocks(), meta, old(Pool()) + x.Blocks());
      } else {
        EmptyExtent(rest);
      }
    }

    /** Gives an extent back: spare blocks first, the rest to the free space. */
    method Release(x: Extent)
      requires Core() && Away(x.Blocks(), free, meta, owned)
      modifies this`freelist, this`metaFree, this`metaTotal, this`byPosition, this`bySize, this`dataFree, this`free, this`meta, engine
      ensures Core() && Pool() == old(Pool()) + x.Blocks()
      ensures x.size == 0 ==> unchanged(this) && unchanged(engine)
      ensures metaTotal >= REQUIRED_TOTAL || metaTotal >= old(metaTotal) + x.size
      ensures |engine.blocks| == |old(engine.blocks)|
      ensures Kept(old(engine.blocks), engine.blocks, old(Pool()) + x.Blocks())
    {
      hide Canonical, Uniform, Split, Range, Kept, Placed, Away, Count;
      KeptRefl(engine.blocks, Pool() + x.Blocks());
      if x.size == 0 {
        EmptyExtent(x);
        return;
      }
      FixFreelist();
      ghost var blocks1 := engine.blocks;
      AwayPool(x.Blocks(), old(free), old(meta), free, meta, owned);
      ReleaseTop(x);
      KeptTrans(old(engine.blocks), blocks1, engine.blocks, old(Pool()), old(Pool()) + x.Blocks(), old(Pool()) + x.Blocks());
    }

    /** The number of blocks by which the file grows for a request. */
    method ChunkSize(blocks: nat) returns (n: nat)
      requires blocks > 0
      ensures n == Chunk(blocks, minChunk)
    {
      n := blocks;
      if n < Math.TWO_POW_63 {
        n := Math.RoundTowardsPow2(n);
      }
      n := if n < minChunk then minChunk else n;
    }

    /** Grows the file, if that is allowed. */
    method AllocateFromEngine(minSize: nat) returns (r: Result<Extent, Error>)
      requires Valid() && minSize > 0
      modifies this`dataTotal, this`owned, engine
      ensures Valid() && (r.Success? <==> canGrow)
      ensures r.Failure? ==> r.error == BadAlloc && unchanged(this) && unchanged(engine)
      ensures r.Success? ==>
                && r.value.block == |old(engine.blocks)| && r.value.size == Chunk(minSize, minChunk)
                && owned == old(owned) + r.value.Blocks() && r.value.Blocks() !! old(owned)
                && Away(r.value.Blocks(), free, meta, owned)
                && |engine.blocks| == r.value.End() && engine.blocks[..|old(engine.blocks)|] == old(engine.blocks)
    {
      hide Canonical, Uniform, Split, Range, Placed, Away, Count;
      if !canGrow {
        return Failure(BadAlloc);
      }
      var start := |engine.blocks|;
      var size := ChunkSize(minSize);
      PlacedGrow(free, meta, owned, Extent(start, size));
      engine.Grow(size);
      dataTotal := dataTotal + size;
      owned := owned + Extent(start, size).Blocks();
      return Success(Extent(start, size));
    }

    /** Reserves the first metadata blocks. */
    method LazyInitialize() returns (r: Outcome<Error>)
      requires Valid()
      modifies this`freelist, this`metaFree, this`metaTotal, this`byPosition, this`bySize, this`dataFree, this`free, this`meta, this`dataTotal, this`owned, engine
      ensures Valid() && Live() == old(Live()) && |old(engine.blocks)| <= |engine.blocks|
      ensures r.Pass? <==> old(metaTotal) >= REQUIRED_TOTAL || canGrow
      ensures r.Pass? ==> metaTotal >= REQUIRED_TOTAL
      ensures old(metaTotal) >= REQUIRED_TOTAL ==> unchanged(this) && unchanged(engine)
      ensures old(metaTotal) < REQUIRED_TOTAL && canGrow ==> |engine.blocks| == |old(engine.blocks)| + Chunk(REQUIRED_TOTAL - old(metaTotal), minChunk)
      ensures r.Fail? ==> r.error == BadAlloc && unchanged(this) && unchanged(engine)
      ensures Kept(old(engine.blocks), engine.blocks, old(Pool())) && OnlyNew(old(owned), owned, |old(engine.blocks)|)
    {
      hide Canonical, Uniform, Split, Range, Placed, Away, Count, Kept, OnlyNew;
      KeptRefl(engine.blocks, Pool());
      OnlyNewExtent(owned, Extent(|engine.blocks|, 0));
      if metaTotal >= REQUIRED_TOTAL {
        return Pass;
      }
      var e := AllocateFromEngine(REQUIRED_TOTAL - metaTotal);
      if e.Failure? {
        return Fail(BadAlloc);
      }
      PlacedInside(old(free), old(meta), old(owned), |old(engine.blocks)|);
      OnlyNewExtent(old(owned), e.value);
      KeptGrown(old(engine.blocks), engine.blocks, {});
      ghost var blocks1 := engine.blocks;
      Release(e.value);
      KeptTrans(old(engine.blocks), blocks1, engine.blocks, {}, old(Pool()) + e.value.Blocks(), old(Pool()) + e.value.Blocks());
      KeptDropNew(old(engine.blocks), engine.blocks, old(Pool()), e.value);
      LiveAfter(old(owned), old(Pool()), {}, e.value.Blocks(), e.value.Blocks(), {});
      return Pass;
    }

    /** Hands out the start of a free extent and gives the rest back. */
    method TakeFromFree(e: Extent, request: nat)
      requires Valid() && e in byPosition.extents && 0 < request <= e.size
      modifies this`freelist, this`metaFree, this`metaTotal, this`byPosition, this`bySize, this`dataFree, this`free, this`meta, this`dataTotal, this`owned, engine
      ensures Valid() && owned == old(owned) && (old(metaTotal) >= REQUIRED_TOTAL ==> metaTotal >= REQUIRED_TOTAL)
      ensures Live() == old(Live()) + Range(e.block, e.block + request) && Range(e.block, e.block + request) !! old(Live())
      ensures |engine.blocks| == |old(engine.blocks)| && Kept(old(engine.blocks), engine.blocks, old(Pool()))
    {
      hide Canonical, Uniform, Split, Range, Placed, Away, Count, Kept, OnlyNew;
      PlacedInside(free, meta, owned, |engine.blocks|);
      AllocateExtent(e);
      ghost var blocks1 := engine.blocks;
      var rest := Extent(e.block + request, e.size - request);
      AwayPart(e, rest, free, meta, owned);
      Release(rest);
      KeptTrans(old(engine.blocks), blocks1, engine.blocks, old(meta), old(Pool()) - e.Blocks() + rest.Blocks(), old(Pool()));
      RangeSplit(e.block, rest.block, e.End());
      LiveAfter(owned, old(Pool()), e.Blocks(), {}, rest.Blocks(), Range(e.block, rest.block));
    }

    /** Hands out the start of new space at the end of the file, after the free extent `e` that ends there, if any. */
    method TakeFromEnd(e: Option<Extent>, request: nat) returns (r: Result<nat, Error>)
      requires Valid() && request > 0
      requires e.Some? ==> e.value in byPosition.extents && e.value.End() == |engine.blocks| && e.value.size < request
      modifies this`freelist, this`metaFree, this`metaTotal, this`byPosition, this`bySize, this`dataFree, this`free, this`meta, this`dataTotal, this`owned, engine
      ensures Valid() && (r.Success? <==> canGrow) && OnlyNew(old(owned), owned, |old(engine.blocks)|)
      ensures old(metaTotal) >= REQUIRED_TOTAL ==> metaTotal >= REQUIRED_TOTAL
      ensures r.Failure? ==> r.error == BadAlloc && unchanged(this) && unchanged(engine)
      ensures r.Success? ==>
                && r.value == (if e.Some? then e.value.block else |old(engine.blocks)|)
                && |engine.blocks| == |old(engine.blocks)| + Chunk(if e.Some? then request - e.value.size else request, minChunk)
                && Live() == old(Live()) + Range(r.value, r.value + request)
                && Range(r.value, r.value + request) !! old(Live())
      ensures |old(engine.blocks)| <= |engine.blocks| && Kept(old(engine.blocks), engine.blocks, old(Pool()))
    {
      hide Canonical, Uniform, Split, Range, Placed, Away, Count, Kept, OnlyNew, Chunk;
      KeptRefl(engine.blocks, Pool());
      PlacedInside(free, meta, owned, |engine.blocks|);
      OnlyNewExtent(owned, Extent(|engine.blocks|, 0));
      var have := if e.Some? then e.value.size else 0;
      var a := AllocateFromEngine(request - have);
      if a.Failure? {
        return Failure(BadAlloc);
      }
      KeptGrown(old(engine.blocks), engine.blocks, {});
      OnlyNewExtent(old(owned), a.value);
      ghost var taken, blocks1 := {}, engine.blocks;
      if e.Some? {
        AllocateExtent(e.value);
        taken := e.value.Blocks();
        AwayStays(a.value.Blocks(), old(free), free, meta, owned);
      }
      KeptTrans(old(engine.blocks), blocks1, engine.blocks, {}, old(meta), old(Pool()));
      var b := a.value.block - have;
      var rest := Extent(b + request, have + a.value.size - request);
      AwayPart(a.value, rest, free, meta, owned);
      ghost var blocks2, pool2 := engine.blocks, Pool();
      Release(rest);
      KeptTrans(old(engine.blocks), blocks2, engine.blocks, old(Pool()), pool2 + rest.Blocks(), old(Pool()) + rest.Blocks());
      KeptDropNew(old(engine.blocks), engine.blocks, old(Pool()), rest);
      SplitAtEnd(b, a.value.block, rest.block, rest.End());
      LiveAfter(old(owned), old(Pool()), taken, a.value.Blocks(), rest.Blocks(), Range(b, b + request));
      r := Success(b);
    }

    /** Best fit, then growth of the last free extent, then growth of the file. */
    method AllocatePrepared(request: nat) returns (r: Result<nat, Error>)
      requires Valid() && request > 0
      modifies this`freelist, this`metaFree, this`metaTotal, this`byPosition, this`bySize, this`dataFree, this`free, this`meta, this`dataTotal, this`owned, engine
      ensures Valid() && OnlyNew(old(owned), owned, |old(engine.blocks)|) && (old(metaTotal) >= REQUIRED_TOTAL ==> metaTotal >= REQUIRED_TOTAL)
      ensures r.Failure? <==> !canGrow && forall e :: e in old(byPosition.extents) ==> e.size < request
      ensures r.Failure? ==> r.error == BadAlloc && unchanged(this) && unchanged(engine)
      ensures r.Success? ==>
                && Live() == old(Live()) + Range(r.value, r.value + request)
                && Range(r.value, r.value + request) !! old(Live())
      ensures forall e :: IsBestFit(old(bySize.extents), request, Some(e)) ==> r == Success(e.block) && owned == old(owned)
      ensures Places(old(byPosition.extents), request, |old(engine.blocks)|, canGrow, minChunk, r, |engine.blocks|)
      ensures |old(engine.blocks)| <= |engine.blocks| && Kept(old(engine.blocks), engine.blocks, old(Pool()))
    {
      hide Canonical, Uniform, Split, Range, Placed, Away, Count, Kept, OnlyNew;
      OnlyNewExtent(owned, Extent(|engine.blocks|, 0));
      FreeInFile(free, meta, owned, |engine.blocks|);
      OneBestFit(bySize.extents, request);
      var fit := BestFit(bySize.extents, request);
      if fit.Some? {
        TakeFromFree(fit.value, request);
        return Success(fit.value.block);
      }
      if byPosition.extents != {} {
        var last := Last(byPosition.extents);
        forall e | e in byPosition.extents && e.End() == |engine.blocks| ensures e == last {
          OnlyLastAtEnd(byPosition.extents, free, |engine.blocks|, last, e);
        }
        if last.End() == |engine.blocks| {
          r := TakeFromEnd(Some(last), request);
          return;
        }
      }
      r := TakeFromEnd(None, request);
    }

    /**
    Hands out `request` consecutive blocks that were not handed out before. The content of every
    other block that is handed out, or not managed here, stays the same, also on failure.
    */
    method Allocate(request: nat) returns (r: Result<nat, Error>)
      requires Valid()
      modifies this`freelist, this`metaFree, this`metaTotal, this`byPosition, this`bySize, this`dataFree, this`free, this`meta, this`dataTotal, this`owned, this`choice, engine
      ensures Valid() && OnlyNew(old(owned), owned, |old(engine.blocks)|)
      ensures r.Success? ==>
                && request > 0 && Live() == old(Live()) + Range(r.value, r.value + request)
                && Range(r.value, r.value + request) !! old(Live())
      ensures r.Failure? ==> Live() == old(Live())
      ensures r == Failure(BadArgument) <==> request == 0
      ensures r.Failure? && request > 0 ==> r.error == BadAlloc
      ensures r == Failure(BadAlloc) ==>
                !canGrow && (metaTotal < REQUIRED_TOTAL || forall e :: e in byPosition.extents ==> e.size < request)
      ensures request > 0 && canGrow ==> r.Success?
      ensures r.Success? || old(metaTotal) >= REQUIRED_TOTAL ==> metaTotal >= REQUIRED_TOTAL
      ensures request > 0 && old(metaTotal) < REQUIRED_TOTAL ==> (r.Success? <==> canGrow)
      ensures request > 0 && old(metaTotal >= REQUIRED_TOTAL && Settled()) ==>
                (r.Failure? <==> !canGrow && forall e :: e in old(byPosition.extents) ==> e.size < request)
      ensures request > 0 && old(metaTotal >= REQUIRED_TOTAL && Settled()) ==> choice == old(byPosition.extents)
      ensures request > 0 && (canGrow || old(metaTotal) >= REQUIRED_TOTAL) ==>
                Places(choice, request, |old(engine.blocks)| + (if old(metaTotal) < REQUIRED_TOTAL then Chunk(REQUIRED_TOTAL - old(metaTotal), minChunk) else 0),
                       canGrow, minChunk, r, |engine.blocks|)
      ensures |old(engine.blocks)| <= |engine.blocks| && Kept(old(engine.blocks), engine.blocks, old(Pool()))
      ensures |engine.blocks| == |old(engine.blocks)| ==> owned == old(owned)
    {
      hide Canonical, Uniform, Split, Range, Placed, Away, Count, Kept, OnlyNew, Places, Chunk;
      KeptRefl(engine.blocks, Pool());
      OnlyNewExtent(owned, Extent(|engine.blocks|, 0));
      if request == 0 {
        return Failure(BadArgument);
      }
      var init := LazyInitialize();
      if init.Fail? {
        return Failure(BadAlloc);
      }
      PlacedInside(free, meta, owned, |engine.blocks|);
      ghost var blocks1, pool1, owned1 := engine.blocks, Pool(), owned;
      FixFreelist();
      ghost var blocks2 := engine.blocks;
      choice := byPosition.extents;
      r := AllocatePrepared(request);
      KeptTrans(blocks1, blocks2, engine.blocks, pool1, pool1, pool1);
      KeptTrans(old(engine.blocks), blocks1, engine.blocks, old(Pool()), pool1, old(Pool()) + pool1);
      KeptInOldPool(old(engine.blocks), engine.blocks, old(owned), old(Pool()), owned1, pool1, old(Pool()));
      OnlyNewTrans(old(owned), owned1, owned, |old(engine.blocks)|, |blocks1|);
      PlacedInside(free, meta, owned, |engine.blocks|);
      SameOwned(old(owned), owned, |old(engine.blocks)|, |engine.blocks|);
    }

    /** Moves the content to the start of the free extent on the left, over itself if need be. */
    method MoveLeft(x: Extent, left: Extent, newSize: nat)
      requires Valid() && x.size > 0 && Away(x.Blocks(), free, meta, owned)
      requires left in byPosition.extents && left.End() == x.block && x.size < newSize <= left.size + x.size
      modifies this`freelist, this`metaFree, this`metaTotal, this`byPosition, this`bySize, this`dataFree, this`free, this`meta, this`dataTotal, this`owned, engine
      ensures Valid() && owned == old(owned) && (old(metaTotal) >= REQUIRED_TOTAL ==> metaTotal >= REQUIRED_TOTAL)
      ensures |engine.blocks| == |old(engine.blocks)|
      ensures Reallocated(old(engine.blocks), engine.blocks, old(Live()), Live(), old(Pool()), x, left.block, newSize)
    {
      hide Canonical, Uniform, Split, Range, Placed, Away, Count, Kept, OnlyNew;
      PlacedInside(free, meta, owned, |engine.blocks|);
      AwayInFile(x, free, meta, owned, |engine.blocks|);
      AllocateExtent(left);
      AwayStays(x.Blocks(), old(free), free, meta, owned);
      ghost var blocks1 := engine.blocks;
      engine.CopyBlocks(x.block, left.block, x.size);
      Copied(blocks1, engine.blocks, left.block, x.size);
      ghost var blocks2 := engine.blocks;
      var rest := Extent(left.block + newSize, left.size + x.size - newSize);
      AwayAcross(left, x, rest, free, meta, owned);
      Release(rest);
      MovedLeft(old(engine.blocks), blocks1, blocks2, engine.blocks, owned, old(Pool()), old(meta), left, x, newSize, rest);
    }

    /** Allocates new storage, moves the content over and gives the old storage back. */
    method MoveAway(x: Extent, newSize: nat) returns (r: Result<nat, Error>)
      requires Valid() && 0 < x.size < newSize && Away(x.Blocks(), free, meta, owned) && metaTotal >= REQUIRED_TOTAL
      modifies this`freelist, this`metaFree, this`metaTotal, this`byPosition, this`bySize, this`dataFree, this`free, this`meta, this`dataTotal, this`owned, this`choice, engine
      ensures Valid() && (canGrow ==> r.Success?) && OnlyNew(old(owned), owned, |old(engine.blocks)|) && metaTotal >= REQUIRED_TOTAL
      ensures r.Success? ==>
                Reallocated(old(engine.blocks), engine.blocks, old(Live()), Live(), old(Pool()), x, r.value, newSize)
      ensures r.Failure? ==> r.error == BadAlloc && Live() == old(Live()) && Kept(old(engine.blocks), engine.blocks, old(Pool()))
      ensures r.Failure? ==> forall e :: e in byPosition.extents ==> e.size < newSize
      ensures old(Settled()) ==> (r.Failure? <==> !canGrow && forall e :: e in old(byPosition.extents) ==> e.size < newSize)
      ensures (old(Settled()) ==> choice == old(byPosition.extents)) && Places(choice, newSize, |old(engine.blocks)|, canGrow, minChunk, r, |engine.blocks|)
    {
      hide Canonical, Uniform, Split, Range, Placed, Away, Count, Kept, OnlyNew, Reallocated, Places, Chunk, Allocator.Settled;
      AwayInFile(x, free, meta, owned, |engine.blocks|);
      r := Allocate(newSize);
      if r.Failure? {
        return;
      }
      PlacedInside(free, meta, owned, |engine.blocks|);
      LiveInFile(r.value, newSize, owned, |engine.blocks|);
      AwayIsLive(x.Blocks(), free, meta, owned);
      ghost var b1, owned1, pool1 := engine.blocks, owned, Pool();
      engine.CopyBlocks(x.block, r.value, x.size);
      Copied(b1, engine.blocks, r.value, x.size);
      ghost var b2 := engine.blocks;
      Release(x);
      assert Live() == (owned1 - pool1) - x.Blocks();
      MovedAway(old(engine.blocks), b1, b2, engine.blocks, old(owned), old(Pool()), owned1, pool1, x, r.value, newSize);
    }

    /** The branches of a growing reallocation, in the order in which they are tried. */
    method GrowExtent(x: Extent, newSize: nat) returns (r: Result<nat, Error>)
      requires Valid() && 0 < x.size < newSize && Away(x.Blocks(), free, meta, owned) && metaTotal >= REQUIRED_TOTAL
      modifies this`freelist, this`metaFree, this`metaTotal, this`byPosition, this`bySize, this`dataFree, this`free, this`meta, this`dataTotal, this`owned, this`choice, engine
      ensures Valid() && (canGrow ==> r.Success?) && OnlyNew(old(owned), owned, |old(engine.blocks)|) && metaTotal >= REQUIRED_TOTAL
      ensures r.Success? ==>
                Reallocated(old(engine.blocks), engine.blocks, old(Live()), Live(), old(Pool()), x, r.value, newSize)
      ensures r.Failure? ==> r.error == BadAlloc && Live() == old(Live()) && Kept(old(engine.blocks), engine.blocks, old(Pool()))
      ensures old(HasRoom(byPosition.extents, x, newSize - x.size)) ==> r.Success? && |engine.blocks| == |old(engine.blocks)|
      ensures Grows(old(byPosition.extents), x, newSize, |old(engine.blocks)|, minChunk, r, |engine.blocks|)
      ensures old(!HasRoom(byPosition.extents, x, newSize - x.size) && !AtEnd(byPosition.extents, x, |engine.blocks|)) ==>
                (old(Settled()) ==> choice == old(byPosition.extents)) && Places(choice, newSize, |old(engine.blocks)|, canGrow, minChunk, r, |engine.blocks|)
      ensures !canGrow && old(!HasRoom(byPosition.extents, x, newSize - x.size) && AtEnd(byPosition.extents, x, |engine.blocks|)) ==> r.Failure?
      ensures r.Failure? && old(!AtEnd(byPosition.extents, x, |engine.blocks|)) ==> forall e :: e in byPosition.extents ==> e.size < newSize
      ensures !canGrow && old(Settled()) ==> (r.Failure? <==> old(Refuses(byPosition.extents, x, newSize, |engine.blocks|)))
    {
      hide Canonical, Uniform, Split, Range, Placed, Away, Count, Kept, OnlyNew, Reallocated, HasRoom, AtEnd, Places, Grows, Chunk, Allocator.Settled;
      AwayInFile(x, free, meta, owned, |engine.blocks|);
      var left, right := Neighbours(byPosition.extents, x.block);
      AwayFromFree(x.Blocks(), free, meta, owned);
      OnlyNeighbours(byPosition.extents, free, x, left, right, newSize - x.size, |engine.blocks|);
      r := GrowBetween(x, newSize, left, right);
      GrowsAre(old(byPosition.extents), left, right, x, newSize, |old(engine.blocks)|, minChunk, r, |engine.blocks|);
    }

    /** The branches, by the neighbours. */
    method GrowBetween(x: Extent, newSize: nat, left: Option<Extent>, right: Option<Extent>) returns (r: Result<nat, Error>)
      requires Valid() && 0 < x.size < newSize && Away(x.Blocks(), free, meta, owned) && metaTotal >= REQUIRED_TOTAL
      requires x.End() <= |engine.blocks| && x.Blocks() <= Live()
      requires (left.Some? ==> left.value in byPosition.extents) && (right.Some? ==> right.value in byPosition.extents)
      modifies this`freelist, this`metaFree, this`metaTotal, this`byPosition, this`bySize, this`dataFree, this`free, this`meta, this`dataTotal, this`owned, this`choice, engine
      ensures Valid() && (canGrow ==> r.Success?) && OnlyNew(old(owned), owned, |old(engine.blocks)|) && metaTotal >= REQUIRED_TOTAL
      ensures r.Success? ==>
                Reallocated(old(engine.blocks), engine.blocks, old(Live()), Live(), old(Pool()), x, r.value, newSize)
      ensures r.Failure? ==> r.error == BadAlloc && Live() == old(Live()) && Kept(old(engine.blocks), engine.blocks, old(Pool()))
      ensures GrowsBy(left, right, x, newSize, |old(engine.blocks)|, minChunk, r, |engine.blocks|)
      ensures var need := newSize - x.size;
              var room := (right.Some? && Touch(x, right.value) && right.value.size >= need) || (left.Some? && Touch(left.value, x) && left.value.size >= need);
              var end := x.End() == |old(engine.blocks)| || (right.Some? && Touch(x, right.value) && right.value.End() == |old(engine.blocks)|);
              && (!canGrow && !room && end ==> r.Failure?)
              && (!room && !end ==>
                    && (r.Failure? ==> forall e :: e in byPosition.extents ==> e.size < newSize)
                    && (old(Settled()) ==> (r.Failure? <==> !canGrow && forall e :: e in old(byPosition.extents) ==> e.size < newSize))
                    && (old(Settled()) ==> choice == old(byPosition.extents))
                    && Places(choice, newSize, |old(engine.blocks)|, canGrow, minChunk, r, |engine.blocks|))
    {
      hide Canonical, Uniform, Split, Range, Placed, Away, Count, Kept, OnlyNew, Reallocated, Places, Chunk, Allocator.Settled;
      OnlyNewExtent(owned, Extent(|engine.blocks|, 0));
      var need := newSize - x.size;
      if right.Some? && Touch(x, right.value) && right.value.size >= need {
        TakeFromFree(right.value, need);
        ReallocatedLonger(old(engine.blocks), engine.blocks, old(Live()), old(Pool()), x, newSize);
        return Success(x.block);
      }
      if left.Some? && Touch(left.value, x) && left.value.size >= need {
        MoveLeft(x, left.value, newSize);
        return Success(left.value.block);
      }
      if right.Some? && Touch(x, right.value) && right.value.End() == |engine.blocks| {
        r := GrowAtEnd(x, newSize, right);
        return;
      }
      if x.End() == |engine.blocks| {
        r := GrowAtEnd(x, newSize, None);
        return;
      }
      r := MoveAway(x, newSize);
    }

    /** Grows the file behind `x`, or behind the free extent that follows it. */
    method GrowAtEnd(x: Extent, newSize: nat, e: Option<Extent>) returns (r: Result<nat, Error>)
      requires Valid() && 0 < x.size < newSize && metaTotal >= REQUIRED_TOTAL && x.End() <= |engine.blocks| && x.Blocks() <= Live()
      requires if e.Some? then e.value in byPosition.extents && Touch(x, e.value) && e.value.End() == |engine.blocks| && e.value.size < newSize - x.size
               else x.End() == |engine.blocks|
      modifies this`freelist, this`metaFree, this`metaTotal, this`byPosition, this`bySize, this`dataFree, this`free, this`meta, this`dataTotal, this`owned, engine
      ensures Valid() && (r.Success? <==> canGrow) && OnlyNew(old(owned), owned, |old(engine.blocks)|) && metaTotal >= REQUIRED_TOTAL
      ensures r.Success? ==>
                && r.value == x.block && Reallocated(old(engine.blocks), engine.blocks, old(Live()), Live(), old(Pool()), x, x.block, newSize)
                && |engine.blocks| == |old(engine.blocks)| + Chunk(if e.Some? then newSize - x.size - e.value.size else newSize - x.size, minChunk)
      ensures r.Failure? ==> r.error == BadAlloc && Live() == old(Live()) && Kept(old(engine.blocks), engine.blocks, old(Pool()))
    {
      hide Canonical, Uniform, Split, Range, Placed, Away, Count, Kept, OnlyNew, Reallocated, Places, Chunk, Allocator.Settled;
      r := TakeFromEnd(e, newSize - x.size);
      if r.Success? {
        ReallocatedLonger(old(engine.blocks), engine.blocks, old(Live()), old(Pool()), x, newSize);
        r := Success(x.block);
      }
    }

    /**
    Changes the size of a range of blocks that is handed out. The result starts with the old
    content, and the content of everything else that is handed out stays the same.
    */
    method Reallocate(x: Extent, newSize: nat) returns (r: Result<nat, Error>)
      requires Valid() && x.size > 0 && newSize > 0 && x.Blocks() <= Live()
      modifies this`freelist, this`metaFree, this`metaTotal, this`byPosition, this`bySize, this`dataFree, this`free, this`meta, this`dataTotal, this`owned, this`choice, engine
      ensures Valid() && (canGrow ==> r.Success?) && OnlyNew(old(owned), owned, |old(engine.blocks)|)
      ensures r.Success? ==>
                Reallocated(old(engine.blocks), engine.blocks, old(Live()), Live(), old(Pool()), x, r.value, newSize)
      ensures r.Failure? ==> r.error == BadAlloc && Live() == old(Live()) && Kept(old(engine.blocks), engine.blocks, old(Pool()))
      ensures r.Success? || old(metaTotal) >= REQUIRED_TOTAL ==> metaTotal >= REQUIRED_TOTAL
      ensures old(metaTotal) < REQUIRED_TOTAL ==> (r.Success? <==> canGrow)
      ensures old(metaTotal) >= REQUIRED_TOTAL && (newSize <= x.size || old(HasRoom(byPosition.extents, x, newSize - x.size))) ==>
                r.Success? && |engine.blocks| == |old(engine.blocks)|
      ensures newSize <= x.size && r.Success? ==> r.value == x.block
      ensures old(metaTotal) >= REQUIRED_TOTAL && newSize > x.size ==>
                Grows(old(byPosition.extents), x, newSize, |old(engine.blocks)|, minChunk, r, |engine.blocks|)
      ensures newSize > x.size && old(metaTotal >= REQUIRED_TOTAL && !HasRoom(byPosition.extents, x, newSize - x.size) && !AtEnd(byPosition.extents, x, |engine.blocks|)) ==>
                (old(Settled()) ==> choice == old(byPosition.extents)) && Places(choice, newSize, |old(engine.blocks)|, canGrow, minChunk, r, |engine.blocks|)
      ensures !canGrow && newSize > x.size && old(!HasRoom(byPosition.extents, x, newSize - x.size) && AtEnd(byPosition.extents, x, |engine.blocks|)) ==>
                r.Failure?
      ensures r.Failure? && old(metaTotal >= REQUIRED_TOTAL && !AtEnd(byPosition.extents, x, |engine.blocks|)) ==>
                forall e :: e in byPosition.extents ==> e.size < newSize
      ensures !canGrow && old(metaTotal >= REQUIRED_TOTAL && Settled()) ==> (r.Failure? <==> old(Refuses(byPosition.extents, x, newSize, |engine.blocks|)))
    {
      hide Canonical, Uniform, Split, Range, Placed, Away, Count, Kept, OnlyNew, Reallocated, HasRoom, AtEnd, Places, Grows, Chunk, Allocator.Settled;
      AwayIsLive(x.Blocks(), free, meta, owned);
      AwayInFile(x, free, meta, owned, |engine.blocks|);
      var init := LazyInitialize();
      if init.Fail? {
        return Failure(BadAlloc);
      }
      AwayIsLive(x.Blocks(), free, meta, owned);
      PlacedInside(free, meta, owned, |engine.blocks|);
      ghost var b1, owned1, pool1 := engine.blocks, owned, Pool();
      if x.size == newSize {
        ReallocatedSame(b1, Live(), pool1, x);
        r := Success(x.block);
        OnlyNewExtent(owned, Extent(|engine.blocks|, 0));
      } else if newSize < x.size {
        var rest := Extent(x.block + newSize, x.size - newSize);
        AwayPart(x, rest, free, meta, owned);
        Release(rest);
        assert Live() == old(Live()) - rest.Blocks();
        ReallocatedShorter(b1, engine.blocks, old(Live()), pool1, x, newSize);
        r := Success(x.block);
        OnlyNewExtent(owned, Extent(|engine.blocks|, 0));
      } else {
        r := GrowExtent(x, newSize);
      }
      OnlyNewTrans(old(owned), owned1, owned, |old(engine.blocks)|, |b1|);
      if r.Success? {
        ReallocatedLater(old(engine.blocks), b1, engine.blocks, old(Live()), Live(), old(owned), old(Pool()), owned1, pool1, x, r.value, newSize);
      } else {
        KeptTrans(old(engine.blocks), b1, engine.blocks, old(Pool()), pool1, old(Pool()) + pool1);
        KeptInOldPool(old(engine.blocks), engine.blocks, old(owned), old(Pool()), owned1, pool1, old(Pool()));
      }
    }

    /** Gives back blocks that are handed out; any part of an allocation will do. */
    method Free(block: Option<nat>, size: nat)
      requires Valid() && (block.Some? ==> Range(block.value, block.value + size) <= Live())
      modifies this`freelist, this`metaFree, this`metaTotal, this`byPosition, this`bySize, this`dataFree, this`free, this`meta, engine
      ensures Valid() && (old(metaTotal) >= REQUIRED_TOTAL ==> metaTotal >= REQUIRED_TOTAL)
      ensures Live() == if block.None? then old(Live()) else old(Live()) - Range(block.value, block.value + size)
      ensures |engine.blocks| == |old(engine.blocks)|
      ensures Kept(old(engine.blocks), engine.blocks, old(Pool()) + if block.None? then {} else Range(block.value, block.value + size))
    {
      hide Canonical, Uniform, Split, Range, Placed, Away, Count, Kept, OnlyNew, Reallocated;
      if block.None? || size == 0 {
        if block.Some? { EmptyExtent(Extent(block.value, size)); }
        KeptRefl(engine.blocks, Pool() + if block.None? then {} else Range(block.value, block.value + size));
        return;
      }
      var x := Extent(block.value, size);
      AwayIsLive(x.Blocks(), free, meta, owned);
      Release(x);
      assert Live() == old(Live()) - x.Blocks();
    }

    /** Adds a region of the file that nobody manages yet. */
    method AddRegion(block: Option<nat>, size: nat) returns (r: Outcome<Error>)
      requires Valid() && (block.Some? ==> Range(block.value, block.value + size) !! owned)
      modifies this`freelist, this`metaFree, this`metaTotal, this`byPosition, this`bySize, this`dataFree, this`free, this`meta, this`dataTotal, this`owned, engine
      ensures Valid() && Live() == old(Live()) && |engine.blocks| == |old(engine.blocks)|
      ensures old(metaTotal) >= REQUIRED_TOTAL ==> metaTotal >= REQUIRED_TOTAL
      ensures r.Pass? <==> block.Some? && 0 < size && block.value + size <= |engine.blocks|
      ensures r.Pass? ==> owned == old(owned) + Range(block.value, block.value + size)
      ensures r.Pass? ==> Kept(old(engine.blocks), engine.blocks, old(Pool()) + Range(block.value, block.value + size))
      ensures r.Fail? ==> r.error == BadArgument && unchanged(this) && unchanged(engine)
    {
      hide Canonical, Uniform, Split, Range, Placed, Away, Count, Kept, OnlyNew, Reallocated;
      if block.None? || size == 0 {
        return Fail(BadArgument);
      }
      if block.value >= |engine.blocks| || size > |engine.blocks| - block.value {
        return Fail(BadArgument);
      }
      var x := Extent(block.value, size);
      PlacedInside(free, meta, owned, |engine.blocks|);
      PlacedAdd(free, meta, owned, |engine.blocks|, x);
      owned := owned + x.Blocks();
      Release(x);
      dataTotal := dataTotal + size;
      LiveAfter(old(owned), old(Pool()), {}, x.Blocks(), x.Blocks(), {});
      return Pass;
    }

    /** The general interface to reallocation: no block stands for no storage. */
    method ReallocateAny(block: Option<nat>, size: nat, newSize: nat) returns (r: Result<Option<nat>, Error>)
      requires Valid() && (block.Some? ==> Range(block.value, block.value + size) <= Live())
      modifies this`freelist, this`metaFree, this`metaTotal, this`byPosition, this`bySize, this`dataFree, this`free, this`meta, this`dataTotal, this`owned, this`choice, engine
      ensures Valid() && OnlyNew(old(owned), owned, |old(engine.blocks)|)
      ensures r == Failure(BadArgument) <==> (block.None? <==> size > 0) || (block.None? && newSize == 0)
      ensures r.Failure? ==> Live() == old(Live()) && Kept(old(engine.blocks), engine.blocks, old(Pool()))
      ensures r.Failure? && r.error != BadArgument ==> r.error == BadAlloc && !canGrow
      ensures r == Failure(BadAlloc) ==> newSize > 0 && (old(metaTotal) < REQUIRED_TOTAL || newSize > size)
      ensures r.Success? ==> (r.value.Some? <==> newSize > 0)
      ensures r.Success? && block.Some? && newSize > 0 ==>
                Reallocated(old(engine.blocks), engine.blocks, old(Live()), Live(), old(Pool()), Extent(block.value, size), r.value.value, newSize)
      ensures r.Success? && block.Some? && newSize == 0 ==>
                && Live() == old(Live()) - Range(block.value, block.value + size)
                && Kept(old(engine.blocks), engine.blocks, old(Pool()) + Range(block.value, block.value + size))
      ensures r.Success? && block.None? ==>
                && Live() == old(Live()) + Range(r.value.value, r.value.value + newSize)
                && Range(r.value.value, r.value.value + newSize) !! old(Live())
                && Kept(old(engine.blocks), engine.blocks, old(Pool()))
    {
      hide Canonical, Uniform, Split, Range, Placed, Away, Count, Kept, OnlyNew, Reallocated;
      OnlyNewExtent(owned, Extent(|engine.blocks|, 0));
      KeptRefl(engine.blocks, Pool());
      if block.None? {
        if size != 0 {
          return Failure(BadArgument);
        }
        var a := Allocate(newSize);
        return if a.Success? then Success(Some(a.value)) else Failure(a.error);
      }
      if size == 0 {
        return Failure(BadArgument);
      }
      var x := Extent(block.value, size);
      if size == newSize {
        AwayIsLive(x.Blocks(), free, meta, owned);
        AwayInFile(x, free, meta, owned, |engine.blocks|);
        ReallocatedSame(engine.blocks, Live(), Pool(), x);
        return Success(block);
      }
      if newSize == 0 {
        Free(block, size);
        return Success(None);
      }
      var b := Reallocate(x, newSize);
      return if b.Success? then Success(Some(b.value)) else Failure(b.error);
    }

    /** Every managed block is in exactly one of five classes, and the counters count them. */
    lemma Conservation()
      requires Valid()
      ensures owned == free + Elements(freelist) + byPosition.nodes + bySize.nodes + Live()
      ensures free !! Elements(freelist) !! byPosition.nodes !! bySize.nodes !! Live()
      ensures metaTotal == metaFree + |byPosition.nodes| + |bySize.nodes|
      ensures dataTotal == dataFree + metaTotal + |Live()|
    {
      hide Split, Canonical, Uniform, Placed, Range;
      SplitSize(freelist, byPosition.nodes, bySize.nodes, meta);
      PlacedInside(free, meta, owned, |engine.blocks|);
      PlacedCounts(free, meta, owned, |engine.blocks|);
      FiveClasses(freelist, byPosition.nodes, bySize.nodes, meta, free, owned);
    }

    /** What the consistency check looks at. */
    ghost predicate Consistent()
      reads this
    {
      && bySize.extents == byPosition.extents && TotalBlocks(byPosition.extents) == dataFree
      && metaFree + |byPosition.nodes| + |bySize.nodes| == metaTotal
    }

    lemma ValidIsConsistent()
      requires Core()
      ensures Consistent()
    {
      hide Canonical, Split, Placed;
      TotalOfCanonical(byPosition.extents, free);
      SplitSize(freelist, byPosition.nodes, bySize.nodes, meta);
    }

    /** The consistency check rejects every state in which the trees and the counters do not agree, and no other. */
    method Validate() returns (ok: bool)
      ensures ok <==> Consistent()
    {
      var rest, sum := byPosition.extents, 0;
      while rest != {}
        invariant rest <= byPosition.extents && sum + TotalBlocks(rest) == TotalBlocks(byPosition.extents)
        invariant forall e :: e in byPosition.extents && e !in rest ==> e in bySize.extents
        decreases rest
      {
        var e :| e in rest;
        if e !in bySize.extents {
          return false;
        }
        TotalWithout(rest, e);
        rest, sum := rest - {e}, sum + e.size;
      }
      if exists e :: e in bySize.extents && e !in byPosition.extents {
        return false;
      }
      return sum == dataFree && metaFree + |byPosition.nodes| + |bySize.nodes| == metaTotal;
    }
  }
}
