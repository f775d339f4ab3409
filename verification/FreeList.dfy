/**
The list of free blocks that is kept inside the free blocks themselves.
*/
module FreeList {
  import opened Blocks
  import opened BigEndian
  import opened Runs
  import opened Wrappers
  import A = Allocator
  import LinearIo
  import Math
  import opened MetaPool

  const HEADER_SIZE: nat := 12
  const VALUE_SIZE: nat := 8
  const INDEX_END: nat := 0xFFFF_FFFF_FFFF_FFFF

  /** A block index as stored; the largest value stands for no block. */
  function IndexValue(i: Option<nat>): nat {
    if i.Some? then i.value else INDEX_END
  }

  function IndexOf(value: nat): Option<nat> {
    if value == INDEX_END then None else Some(value)
  }

  function ValueOffset(i: nat): nat {
    HEADER_SIZE + VALUE_SIZE * i
  }

  function Capacity(blockSize: nat): nat {
    if HEADER_SIZE >= blockSize then 0 else (blockSize - HEADER_SIZE) / VALUE_SIZE
  }

  /** As many values as fit into a block behind the header of 12 bytes. */
  lemma CapacityIs(blockSize: nat, n: nat)
    ensures n == Capacity(blockSize) <==> if blockSize < 20 then n == 0 else 12 + 8 * n <= blockSize < 12 + 8 * (n + 1)
  {}

  // ---- One node.

  /** A node: the next node, the number of values, the values. */
  ghost predicate Shows(b: Block, next: Option<nat>, values: seq<nat>) {
    && ValueOffset(|values|) <= |b|
    && Get(b, 0, 8) == IndexValue(next) && Get(b, 8, 4) == |values|
    && forall i :: 0 <= i < |values| ==> Get(b, ValueOffset(i), 8) == values[i]
  }

  /** The bytes of a node: 8 for the next one, all bits set if there is none, 4 for the number of values, then 8 for each. */
  lemma ShowsIs(b: Block, next: Option<nat>, values: seq<nat>)
    requires 12 + 8 * |values| <= |b| && |values| < 0x1_0000_0000
    requires (next.Some? ==> next.value < INDEX_END) && forall v :: v in values ==> v < INDEX_END
    ensures Shows(b, next, values) <==>
            && Digits(b[..8], if next.Some? then next.value else 0xFFFF_FFFF_FFFF_FFFF)
            && Digits(b[8..12], |values|)
            && forall i :: 0 <= i < |values| ==> Digits(b[12 + 8 * i..20 + 8 * i], values[i])
  {
    hide Decode, Digits;
    assert Pow256(8) == 0x1_0000_0000_0000_0000 && Pow256(4) == 0x1_0000_0000;
    DigitsAre(b[..8], IndexValue(next));
    DigitsAre(b[8..12], |values|);
    assert b[0..8] == b[..8];
    forall i | 0 <= i < |values| ensures Digits(b[12 + 8 * i..20 + 8 * i], values[i]) <==> Get(b, ValueOffset(i), 8) == values[i] {
      assert values[i] in values;
      DigitsAre(b[12 + 8 * i..20 + 8 * i], values[i]);
    }
  }

  lemma ShowsPush(b: Block, next: Option<nat>, values: seq<nat>, v: nat)
    requires Shows(b, next, values) && ValueOffset(|values| + 1) <= |b| && v < Pow256(8) && |values| + 1 < Pow256(4)
    ensures Shows(Put(Put(b, ValueOffset(|values|), 8, v), 8, 4, |values| + 1), next, values + [v])
  {
    hide Get, Put, Pow256;
    var n := |values|;
    var b1 := Put(b, ValueOffset(n), 8, v);
    var b2 := Put(b1, 8, 4, n + 1);
    GetOther(b, ValueOffset(n), 8, v, 0, 8);
    GetOther(b1, 8, 4, n + 1, 0, 8);
    GetOwn(b1, 8, 4, n + 1);
    forall i | 0 <= i < n + 1 ensures Get(b2, ValueOffset(i), 8) == (values + [v])[i] {
      GetOther(b1, 8, 4, n + 1, ValueOffset(i), 8);
      if i < n {
        GetOther(b, ValueOffset(n), 8, v, ValueOffset(i), 8);
      } else {
        GetOwn(b, ValueOffset(n), 8, v);
      }
    }
  }

  lemma ShowsPop(b: Block, next: Option<nat>, values: seq<nat>)
    requires Shows(b, next, values) && |values| > 0 && |values| - 1 < Pow256(4)
    ensures Shows(Put(b, 8, 4, |values| - 1), next, values[..|values| - 1])
  {
    hide Get, Put, Pow256;
    var n := |values| - 1;
    GetOther(b, 8, 4, n, 0, 8);
    GetOwn(b, 8, 4, n);
    forall i | 0 <= i < n ensures Get(Put(b, 8, 4, n), ValueOffset(i), 8) == values[i] {
      GetOther(b, 8, 4, n, ValueOffset(i), 8);
    }
  }

  lemma LastValue(b: Block, next: Option<nat>, values: seq<nat>)
    requires Shows(b, next, values) && |values| > 0
    ensures ValueOffset(|values|) <= |b| && values == values[..|values| - 1] + [Get(b, ValueOffset(|values| - 1), 8)]
  {}

  lemma NextShown(b: Block, next: Option<nat>, values: seq<nat>)
    requires Shows(b, next, values)
    ensures HEADER_SIZE <= |b| && Get(b, 0, 8) == IndexValue(next)
  {}

  lemma ShowsNew(b: Block, next: Option<nat>)
    requires HEADER_SIZE <= |b| && IndexValue(next) < Pow256(8) && 0 < Pow256(4) && INDEX_END < Pow256(8)
    ensures Shows(Put(Put(Put(b, 0, 8, INDEX_END), 8, 4, 0), 0, 8, IndexValue(next)), next, [])
  {
    hide Get, Put, Pow256;
    var b1 := Put(b, 0, 8, INDEX_END);
    var b2 := Put(b1, 8, 4, 0);
    GetOwn(b2, 0, 8, IndexValue(next));
    GetOther(b2, 0, 8, IndexValue(next), 8, 4);
    GetOwn(b1, 8, 4, 0);
  }

  // ---- The list.

  /** Nodes in the order in which they became the head; each is itself a free block. */
  datatype Node = Node(block: nat, values: seq<nat>)

  /** The free blocks, the one that is taken first at the end. */
  ghost function Stack(nodes: seq<Node>): seq<nat> {
    if nodes == [] then []
    else
      var n := nodes[|nodes| - 1];
      Stack(nodes[..|nodes| - 1]) + [n.block] + n.values
  }

  ghost function HeadOf(nodes: seq<Node>): Option<nat> {
    if nodes == [] then None else Some(nodes[|nodes| - 1].block)
  }

  /** Every node is stored in its block, with a pointer to the node before it. */
  ghost predicate Stored(blocks: seq<Block>, nodes: seq<Node>) {
    forall k :: 0 <= k < |nodes| ==>
      nodes[k].block < |blocks| && Shows(blocks[nodes[k].block], HeadOf(nodes[..k]), nodes[k].values)
  }

  lemma {:induction false} NodeInStack(nodes: seq<Node>, k: nat)
    requires k < |nodes|
    ensures nodes[k].block in Stack(nodes)
  {
    if k < |nodes| - 1 {
      NodeInStack(nodes[..|nodes| - 1], k);
    }
  }

  lemma {:induction false} StackOf(front: seq<Node>, block: nat, values: seq<nat>)
    ensures Stack(front + [Node(block, values)]) == Stack(front) + [block] + values
  {}

  lemma DistinctParts(s: seq<nat>, b: nat, t: seq<nat>, x: nat)
    requires NoDuplicates(s + [b] + t) && x in s
    ensures x != b
  {
    var whole := s + [b] + t;
    var i :| 0 <= i < |s| && s[i] == x;
    assert whole[i] == x && whole[|s|] == b;
  }

  /** The block of the last node differs from those of the others. */
  lemma {:induction false} LastDiffers(nodes: seq<Node>, k: nat)
    requires NoDuplicates(Stack(nodes)) && k < |nodes| - 1
    ensures nodes[k].block != nodes[|nodes| - 1].block
  {
    hide NoDuplicates, Stack;
    var n := |nodes| - 1;
    NodeInStack(nodes[..n], k);
    StackOf(nodes[..n], nodes[n].block, nodes[n].values);
    assert nodes == nodes[..n] + [nodes[n]];
    DistinctParts(Stack(nodes[..n]), nodes[n].block, nodes[n].values, nodes[k].block);
  }

  /** Storing new content in the last node keeps the other nodes. */
  lemma {:induction false} StoreLast(blocks: seq<Block>, nodes: seq<Node>, values: seq<nat>, block: Block)
    requires Stored(blocks, nodes) && NoDuplicates(Stack(nodes)) && |nodes| > 0
    requires Shows(block, HeadOf(nodes[..|nodes| - 1]), values)
    ensures nodes[|nodes| - 1].block < |blocks|
    ensures var last := nodes[|nodes| - 1].block;
            Stored(blocks[last := block], nodes[..|nodes| - 1] + [Node(last, values)])
  {
    hide Shows, NoDuplicates, Stack;
    var n := |nodes| - 1;
    assert nodes[n].block < |blocks|;
    var nodes' := nodes[..n] + [Node(nodes[n].block, values)];
    forall k | 0 <= k < n ensures nodes[k].block != nodes[n].block {
      LastDiffers(nodes, k);
    }
    forall k | 0 <= k < |nodes'| ensures nodes'[..k] == nodes[..k] {
    }
  }

  lemma {:induction false} StoreNew(blocks: seq<Block>, nodes: seq<Node>, b: nat, block: Block)
    requires Stored(blocks, nodes) && b < |blocks| && b !in Stack(nodes) && Shows(block, HeadOf(nodes), [])
    ensures Stored(blocks[b := block], nodes + [Node(b, [])])
  {
    hide Shows, Stack;
    var nodes' := nodes + [Node(b, [])];
    forall k | 0 <= k < |nodes| ensures nodes[k].block != b && nodes'[..k] == nodes[..k] {
      NodeInStack(nodes, k);
    }
    assert nodes'[..|nodes|] == nodes;
  }

  lemma {:induction false} DropLast(blocks: seq<Block>, nodes: seq<Node>)
    requires Stored(blocks, nodes) && |nodes| > 0
    ensures Stored(blocks, nodes[..|nodes| - 1])
  {}

  lemma DistinctMore(s: seq<nat>, b: nat)
    requires NoDuplicates(s) && b !in s
    ensures NoDuplicates(s + [b])
  {}

  lemma DistinctLess(s: seq<nat>, b: nat)
    requires NoDuplicates(s + [b])
    ensures NoDuplicates(s)
  {
    assert forall i :: 0 <= i < |s| ==> (s + [b])[i] == s[i];
  }

  ghost predicate AllBelow(s: seq<nat>) {
    forall b :: b in s ==> b < INDEX_END
  }

  lemma BelowMore(s: seq<nat>, b: nat)
    requires AllBelow(s) && b < INDEX_END
    ensures AllBelow(s + [b])
  {}

  lemma BelowLess(s: seq<nat>, b: nat)
    requires AllBelow(s + [b])
    ensures AllBelow(s)
  {
    assert forall x :: x in s ==> x in s + [b];
  }

  ghost predicate Roomy(nodes: seq<Node>, capacity: nat) {
    forall k :: 0 <= k < |nodes| ==> |nodes[k].values| <= capacity
  }

  /** Only the head has room: every node before it is full. */
  ghost predicate Packed(nodes: seq<Node>, capacity: nat) {
    forall k :: 0 <= k < |nodes| - 1 ==> |nodes[k].values| == capacity
  }

  /** The list has as few nodes as it can: each keeps itself and the values that fit. */
  lemma {:induction false} FewNodes(nodes: seq<Node>, capacity: nat)
    requires Packed(nodes, capacity) && Roomy(nodes, capacity)
    ensures |nodes| == Math.CeilDiv(|Stack(nodes)|, capacity + 1)
  {
    hide Stack, Math.CeilDiv;
    NoNodes(nodes);
    Math.CeilDivCovers(0, capacity + 1);
    if nodes != [] {
      var n := |nodes| - 1;
      FullNodes(nodes[..n], capacity);
      StackSize(nodes);
      NodesFor(|Stack(nodes)|, n, |nodes[n].values|, capacity);
    }
  }

  lemma StackSize(nodes: seq<Node>)
    requires nodes != []
    ensures |Stack(nodes)| == |Stack(nodes[..|nodes| - 1])| + 1 + |nodes[|nodes| - 1].values|
  {}

  lemma NodesFor(blocks: nat, full: nat, rest: nat, capacity: nat)
    requires blocks == full * (capacity + 1) + 1 + rest && rest <= capacity
    ensures Math.CeilDiv(blocks, capacity + 1) == full + 1
  {
    MulStep(full, capacity + 1);
    DivUnique(blocks + capacity, capacity + 1, full + 1);
  }

  lemma PackedLast(nodes: seq<Node>, capacity: nat, block: nat, values: seq<nat>)
    requires Packed(nodes, capacity) && |nodes| > 0
    ensures Packed(nodes[..|nodes| - 1] + [Node(block, values)], capacity) && Packed(nodes[..|nodes| - 1], capacity)
  {}

  lemma {:induction false} FullNodes(nodes: seq<Node>, capacity: nat)
    requires forall k :: 0 <= k < |nodes| ==> |nodes[k].values| == capacity
    ensures |Stack(nodes)| == |nodes| * (capacity + 1)
  {
    hide Stack;
    NoNodes(nodes);
    if nodes != [] {
      var n := |nodes| - 1;
      FullNodes(nodes[..n], capacity);
      StackSize(nodes);
      MulStep(n, capacity + 1);
    }
  }

  lemma RoomyLast(nodes: seq<Node>, capacity: nat, block: nat, values: seq<nat>)
    requires Roomy(nodes, capacity) && |values| <= capacity
    ensures Roomy(nodes + [Node(block, values)], capacity)
    ensures |nodes| > 0 ==> Roomy(nodes[..|nodes| - 1], capacity)
  {}

  class List {
    const engine: LinearIo.Engine
    var head: Option<nat>
    ghost var nodes: seq<Node>

    /** The free blocks; the last one is the next to be taken. */
    ghost function Free(): seq<nat>
      reads this
    {
      Stack(nodes)
    }

    ghost predicate Valid()
      reads this, engine
    {
      && engine.Valid() && 0 < Capacity(engine.blockSize) && engine.blockSize < U32_END
      && head == HeadOf(nodes) && Stored(engine.blocks, nodes) && NoDuplicates(Free())
      && AllBelow(Free()) && Roomy(nodes, Capacity(engine.blockSize)) && Packed(nodes, Capacity(engine.blockSize))
    }

    constructor (engine: LinearIo.Engine)
      requires engine.Valid() && 0 < Capacity(engine.blockSize) && engine.blockSize < U32_END
      ensures Valid() && Free() == [] && this.engine == engine
    {
      this.engine, head, nodes := engine, None, [];
    }

    /** Writes a block that belongs to the list. */
    method SetBlock(b: nat, block: Block)
      requires engine.Valid() && b < |engine.blocks| && |block| == engine.blockSize
      modifies engine
      ensures engine.Valid() && engine.blocks == old(engine.blocks)[b := block]
    {
      engine.Overwrite(b, block);
      assert block + Zeros(0) == block;
    }

    /** Puts a value into the head node, which has room for it. */
    method PushValue(b: nat)
      requires Valid() && head.Some? && b < INDEX_END && b !in Free()
      requires |nodes[|nodes| - 1].values| < Capacity(engine.blockSize)
      modifies `nodes, engine
      ensures Valid() && Free() == old(Free()) + [b] && A.Kept(old(engine.blocks), engine.blocks, {head.value})
    {
      hide Shows, NoDuplicates, Get, Put, Uniform, Flat, Stack, AllBelow, Stored, Packed;
      ghost var n, front := |nodes| - 1, nodes[..|nodes| - 1];
      ghost var values := nodes[n].values;
      NodeShown(n);
      Widths(|values| + 1, engine.blockSize);
      var block := engine.blocks[head.value];
      var size := Get(block, 8, 4);
      ShowsPush(block, HeadOf(front), values, b);
      StoreLast(engine.blocks, nodes, values + [b], Put(Put(block, ValueOffset(size), 8, b), 8, 4, size + 1));
      SetBlock(head.value, Put(Put(block, ValueOffset(size), 8, b), 8, 4, size + 1));
      StackOf(front, head.value, values);
      StackOf(front, head.value, values + [b]);
      assert nodes == front + [Node(head.value, values)];
      assert Stack(front) + [head.value] + (values + [b]) == Stack(front) + [head.value] + values + [b];
      DistinctMore(Free(), b);
      BelowMore(Free(), b);
      RoomyLast(nodes, Capacity(engine.blockSize), 0, []);
      PackedLast(nodes, Capacity(engine.blockSize), head.value, values + [b]);
      RoomyLast(front, Capacity(engine.blockSize), head.value, values + [b]);
      nodes := front + [Node(head.value, values + [b])];
    }

    /** Makes the block itself the new head node. */
    method PushNode(b: nat)
      requires Valid() && b < |engine.blocks| && b < INDEX_END && b !in Free()
      requires |nodes| > 0 ==> |nodes[|nodes| - 1].values| == Capacity(engine.blockSize)
      modifies `head, `nodes, engine
      ensures Valid() && Free() == old(Free()) + [b] && A.Kept(old(engine.blocks), engine.blocks, {b})
    {
      hide Shows, NoDuplicates, Get, Put, Flat, Stack, AllBelow, Roomy, Stored;
      Widths(0, engine.blockSize);
      HeadIsFree();
      var zeros := Zeros(engine.blockSize);
      var block := Put(Put(Put(zeros, 0, 8, INDEX_END), 8, 4, 0), 0, 8, IndexValue(head));
      ShowsNew(zeros, head);
      StoreNew(engine.blocks, nodes, b, block);
      SetBlock(b, block);
      StackOf(nodes, b, []);
      DistinctMore(Free(), b);
      BelowMore(Free(), b);
      RoomyLast(nodes, Capacity(engine.blockSize), b, []);
      assert Stack(nodes) + [b] + [] == Stack(nodes) + [b];
      head, nodes := Some(b), nodes + [Node(b, [])];
    }

    /** Adds a block that is not in the list. The list behaves like a stack. */
    method Push(b: nat)
      requires Valid() && b < |engine.blocks| && b < INDEX_END && b !in Free()
      modifies this, engine
      ensures Valid() && Free() == old(Free()) + [b] && A.Kept(old(engine.blocks), engine.blocks, Elements(Free()))
    {
      hide Shows, NoDuplicates, Get, Flat, Stack, A.Kept, Uniform;
      A.KeptRefl(engine.blocks, {});
      if head.Some? {
        NodeShown(|nodes| - 1);
        NodeInStack(nodes, |nodes| - 1);
        if Get(engine.blocks[head.value], 8, 4) != Capacity(engine.blockSize) {
          PushValue(b);
          A.KeptTrans(old(engine.blocks), old(engine.blocks), engine.blocks, {}, {head.value}, Elements(Free()));
          return;
        }
      }
      PushNode(b);
      A.KeptTrans(old(engine.blocks), old(engine.blocks), engine.blocks, {}, {b}, Elements(Free()));
    }

    /** Removes the block that was added last. */
    method Pop() returns (r: Option<nat>)
      requires Valid()
      modifies this, engine
      ensures Valid() && (r.None? <==> old(Free()) == [])
      ensures r.Some? ==> Free() + [r.value] == old(Free())
      ensures A.Kept(old(engine.blocks), engine.blocks, Elements(Free()))
    {
      hide Shows, NoDuplicates, Get, Flat, Stack, A.Kept, Uniform;
      A.KeptRefl(engine.blocks, {});
      if head.None? {
        NoNodes(nodes);
        A.KeptTrans(engine.blocks, engine.blocks, engine.blocks, {}, {}, Elements(Free()));
        return None;
      }
      NodeShown(|nodes| - 1);
      var size := Get(engine.blocks[head.value], 8, 4);
      if size != 0 {
        var v := PopValue();
        NodeInStack(nodes, |nodes| - 1);
        A.KeptTrans(old(engine.blocks), old(engine.blocks), engine.blocks, {}, {head.value}, Elements(Free()));
        return Some(v);
      }
      var b := head.value;
      PopNode();
      A.KeptTrans(old(engine.blocks), engine.blocks, engine.blocks, {}, {}, Elements(Free()));
      return Some(b);
    }

    /** Takes the last value of the head node. */
    method PopValue() returns (v: nat)
      requires Valid() && head.Some? && |nodes[|nodes| - 1].values| > 0
      modifies `nodes, engine
      ensures Valid() && Free() + [v] == old(Free()) && A.Kept(old(engine.blocks), engine.blocks, {head.value})
    {
      hide Shows, NoDuplicates, Get, Put, Uniform, Flat, Stack, AllBelow, Stored, Packed;
      ghost var n, front := |nodes| - 1, nodes[..|nodes| - 1];
      ghost var values := nodes[n].values;
      NodeShown(n);
      Widths(|values| - 1, engine.blockSize);
      var block := engine.blocks[head.value];
      var size := Get(block, 8, 4);
      LastValue(block, HeadOf(front), values);
      v := Get(block, ValueOffset(size - 1), 8);
      ghost var rest := values[..|values| - 1];
      ShowsPop(block, HeadOf(front), values);
      StoreLast(engine.blocks, nodes, rest, Put(block, 8, 4, size - 1));
      SetBlock(head.value, Put(block, 8, 4, size - 1));
      StackOf(front, head.value, values);
      StackOf(front, head.value, rest);
      assert nodes == front + [Node(head.value, values)];
      assert Stack(front) + [head.value] + (rest + [v]) == Stack(front) + [head.value] + rest + [v];
      RoomyLast(nodes, Capacity(engine.blockSize), 0, []);
      PackedLast(nodes, Capacity(engine.blockSize), head.value, rest);
      RoomyLast(front, Capacity(engine.blockSize), head.value, rest);
      nodes := front + [Node(head.value, rest)];
      DistinctLess(Free(), v);
      BelowLess(Free(), v);
    }

    /** Takes the head node itself, which has no values left. */
    method PopNode()
      requires Valid() && head.Some? && nodes[|nodes| - 1].values == []
      modifies `head, `nodes
      ensures Valid() && Free() + [old(head).value] == old(Free())
    {
      hide Shows, NoDuplicates, Get, Flat, Stack, AllBelow, Stored, Packed;
      ghost var front := nodes[..|nodes| - 1];
      NodeShown(|nodes| - 1);
      DropLast(engine.blocks, nodes);
      StackOf(front, head.value, []);
      assert nodes == front + [Node(head.value, [])];
      ghost var b := head.value;
      assert Stack(front) + [b] + [] == Stack(front) + [b];
      RoomyLast(nodes, Capacity(engine.blockSize), 0, []);
      PackedLast(nodes, Capacity(engine.blockSize), head.value, []);
      NextInRange();
      NextShown(engine.blocks[head.value], HeadOf(front), []);
      head := IndexOf(Get(engine.blocks[head.value], 0, 8));
      nodes := front;
      DistinctLess(Free(), b);
      BelowLess(Free(), b);
    }

    /** The next node has a valid index, so reading the stored value gives it back. */
    lemma NextInRange()
      requires Valid() && |nodes| > 0
      ensures IndexOf(IndexValue(HeadOf(nodes[..|nodes| - 1]))) == HeadOf(nodes[..|nodes| - 1])
    {
      hide Shows, NoDuplicates, Stack, Stored;
      if |nodes| > 1 {
        NodeInStack(nodes, |nodes| - 2);
      }
    }

    lemma HeadIsFree()
      requires Valid()
      ensures IndexValue(head) <= INDEX_END
    {
      hide Shows, NoDuplicates, Stack, Stored;
      if |nodes| > 0 {
        NodeInStack(nodes, |nodes| - 1);
      }
    }

    /** The blocks of the list are written to no more nodes than they need. */
    lemma NodesNeeded()
      requires Valid()
      ensures |nodes| == Math.CeilDiv(|Free()|, Capacity(engine.blockSize) + 1)
    {
      hide Shows, NoDuplicates, Stack, Stored;
      FewNodes(nodes, Capacity(engine.blockSize));
    }

    lemma NodeShown(k: nat)
      requires Valid() && k < |nodes|
      ensures nodes[k].block < |engine.blocks| && |engine.blocks[nodes[k].block]| == engine.blockSize
      ensures Shows(engine.blocks[nodes[k].block], HeadOf(nodes[..k]), nodes[k].values)
      ensures Get(engine.blocks[nodes[k].block], 8, 4) == |nodes[k].values|
    {}
  }

  lemma {:induction false} NoNodes(nodes: seq<Node>)
    ensures Stack(nodes) == [] <==> nodes == []
  {}

  /** The numbers that are stored fit their fields. */
  lemma Widths(n: nat, blockSize: nat)
    requires n <= Capacity(blockSize) && blockSize < U32_END
    ensures n < Pow256(4) && INDEX_END < Pow256(8) && (n > 0 ==> ValueOffset(n) <= blockSize)
  {}
}
