/**
An array of fixed-size values in the blocks of an extent.
*/
module RawArrays {
  import opened Blocks
  import opened Runs
  import opened Wrappers
  import A = Allocator
  import E = Extents
  import Math

  type Value = seq<byte>

  /** Value `o` of block `k` is `v`. */
  ghost predicate Holds(content: seq<Block>, k: nat, o: nat, vs: nat, v: Value) {
    k < |content| && o * vs + vs <= |content[k]| && content[k][o * vs..o * vs + vs] == v
  }

  function BlockIndex(i: nat, cap: nat): nat
    requires cap > 0
  {
    i / cap
  }

  function BlockOffset(i: nat, cap: nat): (o: nat)
    requires cap > 0
    ensures o < cap
  {
    i % cap
  }

  /** The blocks hold the values in order, `cap` to a block. Space behind the last value is arbitrary. */
  ghost predicate Represents(content: seq<Block>, cap: nat, vs: nat, items: seq<Value>) {
    && cap > 0 && |items| <= |content| * cap
    && forall i :: 0 <= i < |items| ==> Holds(content, BlockIndex(i, cap), BlockOffset(i, cap), vs, items[i])
  }

  lemma WindowsApart(o: nat, p: nat, vs: nat)
    requires o < p
    ensures o * vs + vs <= p * vs
  {
    MulMono(o + 1, p, vs);
    MulStep(o, vs);
  }

  lemma SpliceWindow(block: Block, at: nat, v: Value, p: nat)
    requires at + |v| <= |block| && p + |v| <= |block|
    ensures Splice(block, at, v)[at..at + |v|] == v
    ensures p + |v| <= at || at + |v| <= p ==> Splice(block, at, v)[p..p + |v|] == block[p..p + |v|]
  {}

  /** Writing one value leaves all other values in place. */
  lemma WriteValue(content: seq<Block>, k: nat, o: nat, vs: nat, v: Value, k': nat, o': nat, w: Value)
    requires k < |content| && o * vs + vs <= |content[k]| && |v| == vs
    requires Holds(content, k', o', vs, w) && (k', o') != (k, o)
    ensures Holds(content[k := Splice(content[k], o * vs, v)], k', o', vs, w)
  {
    if k == k' {
      if o < o' { WindowsApart(o, o', vs); } else { WindowsApart(o', o, vs); }
      SpliceWindow(content[k], o * vs, v, o' * vs);
    }
  }

  lemma WrittenValue(content: seq<Block>, k: nat, o: nat, vs: nat, v: Value)
    requires k < |content| && o * vs + vs <= |content[k]| && |v| == vs
    ensures Holds(content[k := Splice(content[k], o * vs, v)], k, o, vs, v)
  {}

  lemma SamePlace(i: nat, j: nat, cap: nat)
    requires cap > 0 && BlockIndex(i, cap) == BlockIndex(j, cap) && BlockOffset(i, cap) == BlockOffset(j, cap)
    ensures i == j
  {}

  /** Value `i` fits where it is put. */
  lemma Fits(cap: nat, vs: nat, bs: nat, blocks: nat, i: nat)
    requires cap > 0 && cap * vs <= bs && i < blocks * cap
    ensures BlockIndex(i, cap) < blocks && BlockOffset(i, cap) * vs + vs <= bs
  {
    DivBelow(i, cap, blocks);
    WindowsApart(BlockOffset(i, cap), cap, vs);
  }

  /** Writing value `i`, or appending it. */
  lemma SetItem(content: seq<Block>, cap: nat, vs: nat, bs: nat, items: seq<Value>, i: nat, v: Value)
    requires Uniform(content, bs) && Represents(content, cap, vs, items) && cap * vs <= bs && |v| == vs
    requires i <= |items| && i < |content| * cap
    ensures BlockIndex(i, cap) < |content| && BlockOffset(i, cap) * vs + vs <= bs
    ensures Represents(content[BlockIndex(i, cap) := Splice(content[BlockIndex(i, cap)], BlockOffset(i, cap) * vs, v)], cap, vs,
                       if i < |items| then items[i := v] else items + [v])
  {
    hide Holds, Splice, BlockIndex, BlockOffset;
    Fits(cap, vs, bs, |content|, i);
    var k, o := BlockIndex(i, cap), BlockOffset(i, cap);
    var items' := if i < |items| then items[i := v] else items + [v];
    forall j | 0 <= j < |items'|
      ensures Holds(content[k := Splice(content[k], o * vs, v)], BlockIndex(j, cap), BlockOffset(j, cap), vs, items'[j])
    {
      if j == i {
        WrittenValue(content, k, o, vs, v);
      } else {
        if BlockIndex(j, cap) == k && BlockOffset(j, cap) == o { SamePlace(i, j, cap); }
        WriteValue(content, k, o, vs, v, BlockIndex(j, cap), BlockOffset(j, cap), items[j]);
      }
    }
  }

  /** The blocks after value `i` was written. */
  ghost function Written(content: seq<Block>, cap: nat, vs: nat, i: nat, v: Value): seq<Block> {
    if cap > 0 && i / cap < |content| && i % cap * vs + |v| <= |content[i / cap]|
    then content[i / cap := Splice(content[i / cap], i % cap * vs, v)] else content
  }

  /** The first value of a block has only zeroes behind it. */
  ghost predicate FreshStart(content: seq<Block>, cap: nat, bs: nat, i: nat, v: Value) {
    cap > 0 && i % cap == 0 ==> i / cap < |content| && |v| <= bs && content[i / cap] == v + Zeros(bs - |v|)
  }

  lemma WrittenFirst(content: seq<Block>, cap: nat, vs: nat, i: nat, v: Value, bs: nat)
    requires cap > 0 && BlockIndex(i, cap) < |content| && |v| <= bs && (BlockOffset(i, cap) == 0 ==> content[BlockIndex(i, cap)] == Zeros(bs))
    ensures FreshStart(Written(content, cap, vs, i, v), cap, bs, i, v)
  {}

  /** A block that starts behind the last value can be overwritten. */
  lemma UnusedBlock(content: seq<Block>, cap: nat, vs: nat, items: seq<Value>, k: nat, block: Block)
    requires Represents(content, cap, vs, items) && k < |content| && |items| <= k * cap
    ensures Represents(content[k := block], cap, vs, items)
  {}

  /** Only the blocks that values lie in matter. */
  lemma PrefixMatters(content: seq<Block>, content': seq<Block>, cap: nat, vs: nat, items: seq<Value>)
    requires Represents(content, cap, vs, items) && |items| <= |content'| * cap
    requires var k := Least(|content'|, |content|); content'[..k] == content[..k]
    ensures Represents(content', cap, vs, items)
  {}

  datatype Growth = Linear(chunk: nat) | Exponential

  /** The number of blocks that the growth strategy asks for when `minimum` blocks are needed. */
  function GrowthSize(growth: Growth, minimum: nat): nat
    requires growth.Linear? ==> growth.chunk > 0
  {
    match growth
    case Linear(chunk) => Math.CeilDiv(minimum, chunk) * chunk
    case Exponential => if minimum == 0 then 0 else Math.NextPow2(minimum)
  }

  /** The strategy asks for the least multiple of its chunk, or the least power of two, that is enough. */
  lemma {:induction false} GrowthIs(growth: Growth, minimum: nat, n: nat)
    requires growth.Linear? ==> growth.chunk > 0
    ensures n == GrowthSize(growth, minimum) <==>
            match growth
            case Linear(chunk) => n % chunk == 0 && minimum <= n < minimum + chunk
            case Exponential => if minimum == 0 then n == 0 else (exists k :: n == Math.Pow2(k)) && minimum <= n < 2 * minimum
  {
    match growth
    case Linear(chunk) =>
      CeilDivIs(minimum, chunk, n);
    case Exponential =>
      if minimum > 0 {
        Math.NextPow2IsPower(minimum);
        if k :| n == Math.Pow2(k) {
          OnePower(minimum, k, Math.BitLength(minimum - 1));
        }
      }
  }

  lemma CeilDivIs(a: nat, d: nat, n: nat)
    requires d > 0
    ensures n == Math.CeilDiv(a, d) * d <==> n % d == 0 && a <= n < a + d
  {
    Math.CeilDivCovers(a, d);
    var q := Math.CeilDiv(a, d);
    if n % d == 0 && a <= n < a + d {
      var p := n / d;
      assert n == p * d;
      if p < q { MulStep(p, d); MulMono(p + 1, q, d); }
      if q < p { MulStep(q, d); MulMono(q + 1, p, d); }
    }
    DivUnique(q * d, d, q);
  }

  lemma OnePower(v: nat, j: nat, k: nat)
    requires v <= Math.Pow2(k) < 2 * v
    ensures v <= Math.Pow2(j) < 2 * v ==> j == k
  {
    if j < k { Math.PowMono(j + 1, k); }
    if k < j { Math.PowMono(k + 1, j); }
  }

  lemma {:induction false} NextPow2Monotone(a: nat, b: nat)
    requires 0 < a <= b
    ensures Math.NextPow2(a) <= Math.NextPow2(b)
    decreases b
  {
    if a > 1 {
      NextPow2Monotone((a + 1) / 2, (b + 1) / 2);
    }
  }

  lemma {:induction false} GrowthMonotone(growth: Growth, a: nat, b: nat)
    requires (growth.Linear? ==> growth.chunk > 0) && a <= b
    ensures GrowthSize(growth, a) <= GrowthSize(growth, b) && a <= GrowthSize(growth, a)
  {
    match growth
    case Linear(chunk) =>
      QuotientGrows(a + chunk - 1, b + chunk - 1, chunk);
      MulMono(Math.CeilDiv(a, chunk), Math.CeilDiv(b, chunk), chunk);
      Math.CeilDivCovers(a, chunk);
    case Exponential =>
      if a > 0 {
        NextPow2Monotone(a, b);
      }
  }

  /** An extent of `n` blocks cannot grow by shrinking, however many of them are needed, exactly if the strategy can ask for `n`. */
  lemma {:induction false} ShrinkNeverGrows(growth: Growth, n: nat)
    requires growth.Linear? ==> growth.chunk > 0
    ensures (forall needed: nat :: needed <= n ==> GrowthSize(growth, needed) <= n) <==> GrowthSize(growth, n) == n
  {
    hide GrowthSize;
    GrowthMonotone(growth, n, n);
    forall needed: nat | needed <= n ensures GrowthSize(growth, needed) <= GrowthSize(growth, n) {
      GrowthMonotone(growth, needed, n);
    }
  }

  /** An array of three values in a block each that takes four blocks after shrinking. */
  method ShrinkGrows(alloc: A.Allocator) returns (a: RawArray, before: nat)
    requires alloc.Valid() && alloc.canGrow && alloc.engine.blockSize > 0
    modifies alloc, alloc.engine
    ensures a.Valid() && |a.items| == 3 && before == 3 && a.extent.size == 4
  {
    hide A.Kept, A.OnlyNew, A.Allocator.Valid, RawArray.Valid, GrowthSize, Math.CeilDiv, E.Extent.Own;
    FourForThree();
    a := new RawArray(alloc, alloc.engine.blockSize);
    DivUnique(alloc.engine.blockSize, alloc.engine.blockSize, 1);
    var r := a.Resize(3, None);
    a.SizeIs();
    r := a.Shrink(true);
    before := a.extent.size;
    r := a.Shrink(false);
  }

  lemma FourForThree()
    ensures Math.CeilDiv(3, 1) == 3 && GrowthSize(Exponential, 3) == 4
  {}

  function Copies(v: Value, n: nat): (c: seq<Value>) {
    seq(n, _ => v)
  }

  lemma FewerItems(content: seq<Block>, cap: nat, vs: nat, items: seq<Value>, n: nat)
    requires Represents(content, cap, vs, items) && n <= |items|
    ensures Represents(content, cap, vs, items[..n])
  {}

  lemma Reserving(n: nat, cap: nat, blocks: nat, size: nat)
    requires cap > 0 && size <= blocks * cap
    ensures n <= Math.CeilDiv(n, cap) * cap && Math.CeilDiv(n, cap) <= n
    ensures blocks <= Math.CeilDiv(n, cap) ==> size <= Math.CeilDiv(n, cap) * cap
  {
    Math.CeilDivCovers(n, cap);
    MulMono(1, cap, Math.CeilDiv(n, cap));
    if blocks <= Math.CeilDiv(n, cap) { MulMono(blocks, Math.CeilDiv(n, cap), cap); }
    if n < Math.CeilDiv(n, cap) { MulMono(n + 1, Math.CeilDiv(n, cap), cap); MulStep(n, cap); MulMono(1, cap, n); }
  }

  lemma NoMoreThanNeeded(size: nat, cap: nat, blocks: nat)
    requires cap > 0 && size <= blocks * cap
    ensures Math.CeilDiv(size, cap) <= blocks
  {
    MulStep(blocks, cap);
    DivBelow(size + cap - 1, cap, blocks + 1);
  }

  lemma MoreThanRoom(n: nat, cap: nat, blocks: nat)
    requires cap > 0
    ensures Math.CeilDiv(n, cap) > blocks <==> n > blocks * cap
  {
    Math.CeilDivCovers(n, cap);
    if n <= blocks * cap { NoMoreThanNeeded(n, cap, blocks); }
    if Math.CeilDiv(n, cap) <= blocks { MulMono(Math.CeilDiv(n, cap), blocks, cap); }
  }

  lemma LastBlock(size: nat, cap: nat, blocks: nat)
    requires cap > 0 && size <= blocks * cap
    ensures BlockIndex(size, cap) <= blocks && BlockIndex(size, cap) * cap + BlockOffset(size, cap) == size
    ensures size < (blocks + 1) * cap
    ensures BlockIndex(size, cap) < blocks ==> size < blocks * cap
  {
    MulStep(blocks, cap);
    DivBelow(size, cap, blocks + 1);
    var k := BlockIndex(size, cap);
    if k < blocks { MulMono(k + 1, blocks, cap); MulStep(k, cap); }
  }

  lemma QuotientGrows(a: nat, b: nat, d: nat)
    requires d > 0 && a <= b
    ensures a / d <= b / d && b / d * d <= b
  {
    MulStep(b / d, d);
    DivBelow(a, d, b / d + 1);
  }

  class RawArray {
    const extent: E.Extent
    const valueSize: nat
    const blockCapacity: nat
    var size: nat
    var growth: Growth

    /** The values of the array. */
    ghost var items: seq<Value>

    ghost predicate Valid()
      reads this, extent, extent.alloc, extent.alloc.engine
    {
      && extent.Valid()
      && blockCapacity > 0 && blockCapacity * valueSize <= extent.alloc.engine.blockSize
      && size == |items| && size <= extent.size * blockCapacity
      && Represents(extent.Content(), blockCapacity, valueSize, items)
      && (growth.Linear? ==> growth.chunk > 0)
    }

    /** An empty array. A block must fit at least one value. */
    constructor (alloc: A.Allocator, valueSize: nat)
      requires alloc.Valid() && 0 < valueSize <= alloc.engine.blockSize
      ensures Valid() && items == [] && this.valueSize == valueSize && fresh(extent) && extent.alloc == alloc && extent.size == 0
      ensures blockCapacity == alloc.engine.blockSize / valueSize && growth == Exponential
    {
      hide A.Allocator.Valid, Range;
      extent := new E.Extent(alloc);
      this.valueSize, blockCapacity := valueSize, alloc.engine.blockSize / valueSize;
      size, growth, items := 0, Exponential, [];
      assert alloc.engine.blockSize / valueSize > 0 by { DivUnique(valueSize, valueSize, 1); QuotientGrows(valueSize, alloc.engine.blockSize, valueSize); }
    }

    lemma SizeIs()
      requires Valid()
      ensures size == |items|
    {}

    function Capacity(): nat
      reads this, extent
    {
      extent.size * blockCapacity
    }

    /** The number of blocks to ask for when `minimum` blocks are needed. */
    method NewSize(minimum: nat) returns (n: nat)
      requires minimum <= Math.TWO_POW_63 && (growth.Linear? ==> growth.chunk > 0)
      ensures n >= minimum && n == GrowthSize(growth, minimum)
    {
      match growth
      case Linear(chunk) =>
        Math.CeilDivCovers(minimum, chunk);
        n := Math.CeilDiv(minimum, chunk) * chunk;
      case Exponential =>
        n := 0;
        if minimum > 0 {
          n := Math.RoundTowardsPow2(minimum);
        }
    }

    method Get(index: nat) returns (r: Result<Value, A.Error>)
      requires Valid()
      ensures r == if index < size then Success(items[index]) else Failure(A.BadArgument)
    {
      hide A.Allocator.Valid, Range, Uniform, BlockIndex, BlockOffset;
      if index >= size {
        return Failure(A.BadArgument);
      }
      assert Holds(extent.Content(), BlockIndex(index, blockCapacity), BlockOffset(index, blockCapacity), valueSize, items[index]);
      var b := extent.Get(BlockIndex(index, blockCapacity));
      var at := BlockOffset(index, blockCapacity) * valueSize;
      return Success(extent.alloc.engine.blocks[b.value][at..at + valueSize]);
    }

    /** Writes value `i` in place; `i == size` appends. */
    method Put(i: nat, v: Value)
      requires Valid() && |v| == valueSize && i <= size && i < Capacity()
      modifies this`items, this`size, extent.alloc.engine
      ensures Valid() && items == (if i < old(size) then old(items)[i := v] else old(items) + [v])
      ensures extent.Content() == Written(old(extent.Content()), blockCapacity, valueSize, i, v)
      ensures A.Kept(old(extent.alloc.engine.blocks), extent.alloc.engine.blocks, extent.Own())
    {
      hide Represents, Uniform, Splice, A.Kept, A.Allocator.Valid, Range;
      extent.ContentIsUniform();
      SetItem(extent.Content(), blockCapacity, valueSize, extent.alloc.engine.blockSize, items, i, v);
      extent.Write(BlockIndex(i, blockCapacity), BlockOffset(i, blockCapacity) * valueSize, v);
      items := if i < |items| then items[i := v] else items + [v];
      size := if i < size then size else size + 1;
    }

    method Set(index: nat, v: Value) returns (r: Outcome<A.Error>)
      requires Valid() && |v| == valueSize
      modifies this`items, this`size, extent.alloc.engine
      ensures Valid() && (r.Pass? <==> index < old(size))
      ensures items == if r.Pass? then old(items)[index := v] else old(items)
      ensures A.Kept(old(extent.alloc.engine.blocks), extent.alloc.engine.blocks, extent.Own())
    {
      if index >= size {
        A.KeptRefl(extent.alloc.engine.blocks, extent.Own());
        return Fail(A.BadArgument);
      }
      Put(index, v);
      return Pass;
    }

    /** Changes the number of blocks to a number that still covers all values. */
    method ResizeExtent(minimum: nat, exact: bool) returns (r: Outcome<A.Error>)
      requires Valid() && minimum <= Math.TWO_POW_63 && size <= minimum * blockCapacity
      modifies extent, extent.alloc, extent.alloc.engine
      ensures extent.alloc.canGrow == old(extent.alloc.canGrow)
      ensures Valid() && (extent.alloc.canGrow ==> r.Pass?)
      ensures r.Pass? ==> extent.size >= minimum && extent.size == if exact then minimum else GrowthSize(growth, minimum)
      ensures r.Fail? ==> extent.size == old(extent.size)
      ensures extent.alloc.Live() - extent.Own() == old(extent.alloc.Live() - extent.Own())
      ensures A.OnlyNew(old(extent.alloc.owned), extent.alloc.owned, |old(extent.alloc.engine.blocks)|)
      ensures A.Kept(old(extent.alloc.engine.blocks), extent.alloc.engine.blocks, old(extent.alloc.Pool() + extent.Own()))
    {
      hide Represents, Uniform, Splice, BlockIndex, BlockOffset, A.Kept, A.OnlyNew, A.Allocator.Valid, Range;
      var n := minimum;
      if !exact {
        n := NewSize(minimum);
      }
      MulMono(minimum, n, blockCapacity);
      ghost var content := extent.Content();
      r := extent.Resize(n);
      if r.Pass? {
        PrefixMatters(content, extent.Content(), blockCapacity, valueSize, items);
      }
    }

    /** Makes room for at least `n` values. */
    method Reserve(n: nat) returns (r: Outcome<A.Error>)
      requires Valid() && n <= Math.TWO_POW_63
      modifies extent, extent.alloc, extent.alloc.engine
      ensures extent.alloc.canGrow == old(extent.alloc.canGrow)
      ensures Valid() && (extent.alloc.canGrow ==> r.Pass?) && (r.Pass? ==> Capacity() >= n)
      ensures extent.size >= old(extent.size)
      ensures extent.size == if r.Pass? && n > old(Capacity()) then GrowthSize(growth, Math.CeilDiv(n, blockCapacity)) else old(extent.size)
      ensures extent.alloc.Live() - extent.Own() == old(extent.alloc.Live() - extent.Own())
      ensures A.OnlyNew(old(extent.alloc.owned), extent.alloc.owned, |old(extent.alloc.engine.blocks)|)
      ensures A.Kept(old(extent.alloc.engine.blocks), extent.alloc.engine.blocks, old(extent.alloc.Pool() + extent.Own()))
    {
      hide Represents, Uniform, Splice, BlockIndex, BlockOffset, A.Kept, A.OnlyNew, A.Allocator.Valid, Range, GrowthSize, Math.CeilDiv;
      A.KeptRefl(extent.alloc.engine.blocks, extent.alloc.Pool() + extent.Own());
      A.OnlyNewExtent(extent.alloc.owned, E.F.Extent(|extent.alloc.engine.blocks|, 0));
      var needed := Math.CeilDiv(n, blockCapacity);
      Reserving(n, blockCapacity, extent.size, size);
      MoreThanRoom(n, blockCapacity, extent.size);
      if needed > extent.size {
        r := ResizeExtent(needed, false);
        if r.Pass? { MulMono(needed, extent.size, blockCapacity); }
      } else {
        MulMono(needed, extent.size, blockCapacity);
        r := Pass;
      }
    }

    /**
    Sets the number of blocks to what the values need, rounded by the growth strategy unless `exact`.
    Rounding can make that more than before: three full blocks grow to four under exponential growth.
    */
    method Shrink(exact: bool) returns (r: Outcome<A.Error>)
      requires Valid() && size <= Math.TWO_POW_63
      modifies extent, extent.alloc, extent.alloc.engine
      ensures extent.alloc.canGrow == old(extent.alloc.canGrow)
      ensures Valid() && (extent.alloc.canGrow ==> r.Pass?)
      ensures r.Pass? ==> var needed := Math.CeilDiv(size, blockCapacity);
                          extent.size == if exact then needed else GrowthSize(growth, needed)
      ensures r.Pass? ==> (extent.size <= old(extent.size) <==> exact || GrowthSize(growth, Math.CeilDiv(size, blockCapacity)) <= old(extent.size))
      ensures extent.alloc.Live() - extent.Own() == old(extent.alloc.Live() - extent.Own())
      ensures A.OnlyNew(old(extent.alloc.owned), extent.alloc.owned, |old(extent.alloc.engine.blocks)|)
      ensures A.Kept(old(extent.alloc.engine.blocks), extent.alloc.engine.blocks, old(extent.alloc.Pool() + extent.Own()))
    {
      hide Represents, Uniform, Splice, BlockIndex, BlockOffset, A.Kept, A.OnlyNew, A.Allocator.Valid, Range;
      Math.CeilDivCovers(size, blockCapacity);
      Reserving(size, blockCapacity, extent.size, size);
      NoMoreThanNeeded(size, blockCapacity, extent.size);
      r := ResizeExtent(Math.CeilDiv(size, blockCapacity), exact);
    }

    /** Zeroes a block before the first value is put into it; no value lies in it yet. */
    method CreateBlock(k: nat)
      requires Valid() && k < extent.size && size <= k * blockCapacity
      modifies extent.alloc.engine
      ensures Valid() && A.Kept(old(extent.alloc.engine.blocks), extent.alloc.engine.blocks, extent.Own())
      ensures k < |extent.Content()| && extent.Content()[k] == Zeros(extent.alloc.engine.blockSize)
    {
      hide Represents, Uniform, Splice, BlockIndex, BlockOffset, A.Kept, A.OnlyNew, A.Allocator.Valid, Range;
      UnusedBlock(extent.Content(), blockCapacity, valueSize, items, k, Zeros(extent.alloc.engine.blockSize));
      extent.OverwriteZero(k);
    }

    /** Puts a value behind the last one, into a fresh block if that is where it goes. */
    method Append(v: Value)
      requires Valid() && |v| == valueSize && size < Capacity()
      modifies this`items, this`size, extent.alloc.engine
      ensures Valid() && items == old(items) + [v]
      ensures FreshStart(extent.Content(), blockCapacity, extent.alloc.engine.blockSize, old(size), v)
      ensures A.Kept(old(extent.alloc.engine.blocks), extent.alloc.engine.blocks, extent.Own())
    {
      hide Represents, Uniform, Splice, BlockIndex, BlockOffset, A.Kept, A.OnlyNew, A.Allocator.Valid, Range, Written, FreshStart;
      LastBlock(size, blockCapacity, extent.size);
      Fits(blockCapacity, valueSize, extent.alloc.engine.blockSize, extent.size, size);
      A.KeptRefl(extent.alloc.engine.blocks, extent.Own());
      if BlockOffset(size, blockCapacity) == 0 {
        CreateBlock(BlockIndex(size, blockCapacity));
      }
      ghost var b1, c1 := extent.alloc.engine.blocks, extent.Content();
      Put(size, v);
      A.KeptTrans(old(extent.alloc.engine.blocks), b1, extent.alloc.engine.blocks, extent.Own(), extent.Own(), extent.Own());
      WrittenFirst(c1, blockCapacity, valueSize, old(size), v, extent.alloc.engine.blockSize);
    }

    /** Appends a value. On failure nothing changes. */
    method PushBack(v: Value) returns (r: Outcome<A.Error>)
      requires Valid() && |v| == valueSize && extent.size < Math.TWO_POW_63
      modifies this`items, this`size, extent, extent.alloc, extent.alloc.engine
      ensures Valid() && (extent.alloc.canGrow ==> r.Pass?)
      ensures items == if r.Pass? then old(items) + [v] else old(items)
      ensures r.Pass? ==> FreshStart(extent.Content(), blockCapacity, extent.alloc.engine.blockSize, old(size), v)
      ensures extent.size == if r.Pass? && old(size == Capacity()) then GrowthSize(growth, old(extent.size) + 1) else old(extent.size)
      ensures extent.alloc.Live() - extent.Own() == old(extent.alloc.Live() - extent.Own())
      ensures A.OnlyNew(old(extent.alloc.owned), extent.alloc.owned, |old(extent.alloc.engine.blocks)|)
      ensures A.Kept(old(extent.alloc.engine.blocks), extent.alloc.engine.blocks, old(extent.alloc.Pool() + extent.Own()))
    {
      hide Represents, Uniform, Splice, BlockIndex, BlockOffset, A.Kept, A.OnlyNew, A.Allocator.Valid, Range, FreshStart;
      LastBlock(size, blockCapacity, extent.size);
      A.KeptRefl(extent.alloc.engine.blocks, extent.alloc.Pool() + extent.Own());
      ghost var before, owned, pool, own := extent.alloc.engine.blocks, extent.alloc.owned, extent.alloc.Pool(), extent.Own();
      A.OnlyNewExtent(owned, E.F.Extent(|before|, 0));
      if BlockIndex(size, blockCapacity) == extent.size {
        r := ResizeExtent(extent.size + 1, false);
        if r.Fail? {
          return;
        }
        MulMono(old(extent.size) + 1, extent.size, blockCapacity);
      }
      ghost var b1 := extent.alloc.engine.blocks;
      Append(v);
      E.WroteOwn(before, b1, extent.alloc.engine.blocks, owned, pool, own, extent.alloc.owned, extent.alloc.Pool(), extent.Own());
      r := Pass;
    }

    method PopBack() returns (r: Outcome<A.Error>)
      requires Valid()
      modifies this`items, this`size
      ensures Valid() && (r.Pass? <==> |old(items)| > 0)
      ensures items == if r.Pass? then old(items)[..|old(items)| - 1] else []
    {
      if size == 0 {
        return Fail(A.BadArgument);
      }
      Truncate(size - 1);
      return Pass;
    }

    /** Forgets the values from index `n` on. */
    method Truncate(n: nat)
      requires Valid() && n <= size
      modifies this`items, this`size
      ensures Valid() && items == old(items)[..n]
    {
      hide Represents, Uniform, Splice, BlockIndex, BlockOffset, A.Kept, A.OnlyNew, A.Allocator.Valid, Range;
      FewerItems(extent.Content(), blockCapacity, valueSize, items, n);
      items, size := items[..n], n;
    }

    /** Puts `count` copies of a value behind the last one, all into the same block. */
    method FillBlock(count: nat, v: Value)
      requires Valid() && |v| == valueSize && size + count <= Capacity()
      requires 0 < count <= blockCapacity - BlockOffset(size, blockCapacity)
      modifies this`items, this`size, extent.alloc.engine
      ensures Valid() && items == old(items) + Copies(v, count)
      ensures A.Kept(old(extent.alloc.engine.blocks), extent.alloc.engine.blocks, extent.Own())
    {
      hide Represents, Uniform, Splice, BlockIndex, BlockOffset, A.Kept, A.OnlyNew, A.Allocator.Valid, Range;
      Append(v);
      assert items == old(items) + Copies(v, 1);
      var i := 1;
      while i < count
        invariant Valid() && 1 <= i <= count && items == old(items) + Copies(v, i)
        invariant A.Kept(old(extent.alloc.engine.blocks), extent.alloc.engine.blocks, extent.Own())
      {
        ghost var b1 := extent.alloc.engine.blocks;
        Put(size, v);
        A.KeptTrans(old(extent.alloc.engine.blocks), b1, extent.alloc.engine.blocks, extent.Own(), extent.Own(), extent.Own());
        i := i + 1;
      }
    }

    /** Appends copies of a value, block by block, until there are `n`. There is room for them. */
    method Fill(n: nat, v: Value)
      requires Valid() && |v| == valueSize && size <= n <= Capacity()
      modifies this`items, this`size, extent.alloc.engine
      ensures Valid() && items == old(items) + Copies(v, n - |old(items)|)
      ensures A.Kept(old(extent.alloc.engine.blocks), extent.alloc.engine.blocks, extent.Own())
    {
      hide Represents, Uniform, Splice, BlockIndex, BlockOffset, A.Kept, A.OnlyNew, A.Allocator.Valid, Range;
      A.KeptRefl(extent.alloc.engine.blocks, extent.Own());
      assert items + Copies(v, 0) == items;
      while size < n
        invariant Valid() && |old(items)| <= size <= n && items == old(items) + Copies(v, size - |old(items)|)
        invariant A.Kept(old(extent.alloc.engine.blocks), extent.alloc.engine.blocks, extent.Own())
        decreases n - size
      {
        ghost var b1 := extent.alloc.engine.blocks;
        FillBlock(Least(n - size, blockCapacity - BlockOffset(size, blockCapacity)), v);
        A.KeptTrans(old(extent.alloc.engine.blocks), b1, extent.alloc.engine.blocks, extent.Own(), extent.Own(), extent.Own());
      }
    }

    /** Cuts off values or appends copies of `value`; without one, zeroes. */
    method Resize(n: nat, value: Option<Value>) returns (r: Outcome<A.Error>)
      requires Valid() && n <= Math.TWO_POW_63 && (value.Some? ==> |value.value| == valueSize)
      modifies this`items, this`size, extent, extent.alloc, extent.alloc.engine
      ensures extent.alloc.canGrow == old(extent.alloc.canGrow)
      ensures Valid() && (extent.alloc.canGrow || n <= |old(items)| ==> r.Pass?)
      ensures r.Fail? ==> items == old(items)
      ensures r.Pass? ==> items == if n <= |old(items)| then old(items)[..n]
                                   else old(items) + Copies(if value.Some? then value.value else Zeros(valueSize), n - |old(items)|)
      ensures extent.size == if r.Pass? && n > old(Capacity()) then GrowthSize(growth, Math.CeilDiv(n, blockCapacity)) else old(extent.size)
      ensures extent.alloc.Live() - extent.Own() == old(extent.alloc.Live() - extent.Own())
      ensures A.OnlyNew(old(extent.alloc.owned), extent.alloc.owned, |old(extent.alloc.engine.blocks)|)
      ensures A.Kept(old(extent.alloc.engine.blocks), extent.alloc.engine.blocks, old(extent.alloc.Pool() + extent.Own()))
    {
      hide Represents, Uniform, Splice, BlockIndex, BlockOffset, A.Kept, A.OnlyNew, A.Allocator.Valid, Range;
      A.KeptRefl(extent.alloc.engine.blocks, extent.alloc.Pool() + extent.Own());
      ghost var before, owned, pool, own := extent.alloc.engine.blocks, extent.alloc.owned, extent.alloc.Pool(), extent.Own();
      A.OnlyNewExtent(owned, E.F.Extent(|before|, 0));
      if n <= size {
        Truncate(n);
        return Pass;
      }
      r := Reserve(n);
      if r.Fail? {
        return;
      }
      ghost var b1 := extent.alloc.engine.blocks;
      Fill(n, if value.Some? then value.value else Zeros(valueSize));
      E.WroteOwn(before, b1, extent.alloc.engine.blocks, owned, pool, own, extent.alloc.owned, extent.alloc.Pool(), extent.Own());
    }

    /** Gives all blocks back. */
    method Reset()
      requires Valid()
      modifies this`items, this`size, extent, extent.alloc, extent.alloc.engine
      ensures Valid() && items == [] && extent.size == 0
      ensures extent.alloc.Live() == old(extent.alloc.Live() - extent.Own())
      ensures A.Kept(old(extent.alloc.engine.blocks), extent.alloc.engine.blocks, old(extent.alloc.Pool() + extent.Own()))
    {
      hide Represents, Uniform, Splice, BlockIndex, BlockOffset, A.Kept, A.OnlyNew, A.Allocator.Valid, Range;
      FewerItems(extent.Content(), blockCapacity, valueSize, items, 0);
      ghost var content := extent.Content();
      extent.Clear();
      items, size := [], 0;
      PrefixMatters(content, extent.Content(), blockCapacity, valueSize, []);
    }
  }
}
