/**
Reference counted handles to blocks that are pinned in memory.
*/
module Handles {
  import opened Blocks
  import opened Wrappers

  datatype Error = BadArgument | IoError

  /** The shared part of all handles to one block. */
  class Internal {
    var refcount: nat
    var index: nat

    constructor ()
      ensures refcount == 0
    {
      refcount, index := 0, 0;
    }
  }

  /** A handle of the application; it may refer to nothing. */
  class BlockHandle {
    var impl: Internal?

    constructor (impl: Internal?)
      ensures this.impl == impl
    {
      this.impl := impl;
    }
  }

  // ---- Counting references.

  /** The block that each handle of the application refers to. */
  type Targets = map<BlockHandle, Option<nat>>

  ghost function Refs(target: Targets, i: nat): set<BlockHandle> {
    set h | h in target && target[h] == Some(i)
  }

  ghost function RefCount(target: Targets, i: nat): nat {
    |Refs(target, i)|
  }

  function One(b: bool): nat {
    if b then 1 else 0
  }

  lemma CountSet(target: Targets, h: BlockHandle, t: Option<nat>, i: nat)
    ensures RefCount(target[h := t], i) + One(h in target && target[h] == Some(i)) == RefCount(target, i) + One(t == Some(i))
  {
    var before, after := Refs(target, i), Refs(target[h := t], i);
    if t == Some(i) {
      assert after == before + {h};
    } else {
      assert after == before - {h};
    }
  }

  /** A block without references. */
  lemma CountZero(target: Targets, i: nat)
    ensures RefCount(target, i) == 0 <==> forall h :: h in target ==> target[h] != Some(i)
  {
    assert RefCount(target, i) == 0 <==> Refs(target, i) == {};
    assert forall h :: h in target && target[h] == Some(i) ==> h in Refs(target, i);
  }

  lemma RefAdded(target: Targets, h: BlockHandle, i: nat)
    requires h !in target || target[h] == None
    ensures RefCount(target[h := Some(i)], i) == RefCount(target, i) + 1
    ensures forall j: nat :: j != i ==> RefCount(target[h := Some(i)], j) == RefCount(target, j)
  {
    hide RefCount;
    CountSet(target, h, Some(i), i);
    forall j: nat | j != i ensures RefCount(target[h := Some(i)], j) == RefCount(target, j) {
      CountSet(target, h, Some(i), j);
    }
  }

  lemma RefDropped(target: Targets, h: BlockHandle, i: nat)
    requires h in target && target[h] == Some(i)
    ensures RefCount(target, i) == RefCount(target[h := None], i) + 1
    ensures forall j: nat :: j != i ==> RefCount(target[h := None], j) == RefCount(target, j)
  {
    hide RefCount;
    CountSet(target, h, None, i);
    forall j: nat | j != i ensures RefCount(target[h := None], j) == RefCount(target, j) {
      CountSet(target, h, None, j);
    }
  }

  /** Managed blocks have references. */
  ghost predicate InUse(handles: map<nat, Internal>, target: Targets, held: Option<nat>) {
    && (forall i :: i in handles ==> RefCount(target, i) + One(held == Some(i)) > 0)
    && (held.Some? ==> held.value in handles)
  }

  function PinCount(pins: map<nat, nat>, i: nat): nat {
    if i in pins then pins[i] else 0
  }

  const MAX_FREE := 1024

  // ---- The blocks in memory and in the file.

  /** A block in memory is that of the file, unless it was changed. */
  ghost predicate Agree(memory: map<nat, Block>, dirty: set<nat>, stored: seq<Block>, spoiled: set<nat>, bs: nat) {
    && dirty <= memory.Keys && spoiled <= memory.Keys && dirty !! spoiled
    && (forall i :: i in memory ==> i < |stored| && |memory[i]| == bs)
    && (forall i :: 0 <= i < |stored| ==> |stored[i]| == bs)
    && (forall i :: i in memory && i !in dirty && i !in spoiled ==> memory[i] == stored[i])
  }

  ghost function SeenBlocks(memory: map<nat, Block>, stored: seq<Block>): (s: seq<Block>)
    ensures |s| == |stored|
  {
    seq(|stored|, i requires 0 <= i < |stored| => if i in memory then memory[i] else stored[i])
  }

  lemma SeenLoaded(memory: map<nat, Block>, dirty: set<nat>, stored: seq<Block>, spoiled: set<nat>, bs: nat, i: nat)
    requires Agree(memory, dirty, stored, spoiled, bs) && i < |stored| && i !in memory
    ensures Agree(memory[i := stored[i]], dirty, stored, spoiled, bs) && SeenBlocks(memory[i := stored[i]], stored) == SeenBlocks(memory, stored)
  {}

  lemma SeenReplaced(memory: map<nat, Block>, dirty: set<nat>, stored: seq<Block>, spoiled: set<nat>, bs: nat, i: nat, data: Block)
    requires Agree(memory, dirty, stored, spoiled, bs) && i < |stored| && |data| == bs
    ensures Agree(memory[i := data], dirty + {i}, stored, spoiled - {i}, bs)
    ensures Agree(memory[i := data], dirty, stored, if i in dirty then spoiled else spoiled + {i}, bs)
    ensures SeenBlocks(memory[i := data], stored) == SeenBlocks(memory, stored)[i := data]
  {}

  lemma SeenEvicted(memory: map<nat, Block>, dirty: set<nat>, stored: seq<Block>, spoiled: set<nat>, bs: nat, i: nat)
    requires Agree(memory, dirty, stored, spoiled, bs)
    ensures i in dirty ==> i in memory && i < |stored|
    ensures var stored' := if i in dirty then stored[i := memory[i]] else stored;
            && Agree(memory - {i}, dirty - {i}, stored', spoiled - {i}, bs)
            && (i in spoiled ==> i < |stored| && SeenBlocks(memory - {i}, stored') == SeenBlocks(memory, stored)[i := stored[i]])
            && (i !in spoiled ==> SeenBlocks(memory - {i}, stored') == SeenBlocks(memory, stored))
  {}

  lemma SeenGrown(memory: map<nat, Block>, dirty: set<nat>, stored: seq<Block>, spoiled: set<nat>, bs: nat, n: nat)
    requires Agree(memory, dirty, stored, spoiled, bs)
    ensures var more := seq(n, _ => Zeros(bs));
            Agree(memory, dirty, stored + more, spoiled, bs) && SeenBlocks(memory, stored + more) == SeenBlocks(memory, stored) + more
  {}

  class Manager {
    const blockSize: nat

    /** The managed handles, by block, and unused ones. */
    var handles: map<nat, Internal>
    var freelist: seq<Internal>

    /** The other side: how often each block is pinned, the blocks in memory, those of them that are marked as changed, and the file. */
    var pins: map<nat, nat>
    var memory: map<nat, Block>
    var dirty: set<nat>
    var stored: seq<Block>

    ghost var target: Targets

    /** Blocks whose content was replaced in memory although marking them as changed failed. */
    ghost var spoiled: set<nat>

    /** A block to which an assignment in progress holds a reference on top of those of the handles. */
    ghost var held: Option<nat>

    /** Managed handles know their block and count their references. */
    ghost predicate CountsOk()
      reads `handles, `target, `held, handles.Values
    {
      forall i :: i in handles ==> handles[i].index == i && handles[i].refcount == RefCount(target, i) + One(held == Some(i))
    }

    ghost predicate TargetsOk()
      reads `handles, `target, target.Keys
    {
      forall h :: h in target ==>
        if target[h].None? then h.impl == null else target[h].value in handles && h.impl == handles[target[h].value]
    }

    ghost predicate FreeOk()
      reads `handles, `freelist, freelist
    {
      && (forall x :: x in freelist ==> x.refcount == 0 && forall i :: i in handles ==> handles[i] != x)
      && (forall j, k :: 0 <= j < k < |freelist| ==> freelist[j] != freelist[k])
    }

    /** Exactly the managed blocks are pinned, once. */
    ghost predicate PinsOk()
      reads `handles, `pins, `memory
    {
      (forall i: nat :: PinCount(pins, i) == One(i in handles)) && handles.Keys <= memory.Keys
    }

    ghost predicate StoreOk()
      reads `memory, `dirty, `stored, `spoiled
    {
      Agree(memory, dirty, stored, spoiled, blockSize)
    }

    /** The blocks as they are read. */
    ghost function Seen(): seq<Block>
      reads `memory, `stored
    {
      SeenBlocks(memory, stored)
    }

    ghost predicate Valid()
      reads this, handles.Values, freelist, target.Keys
    {
      Ok() && held == None
    }

    ghost predicate Ok()
      reads this, handles.Values, freelist, target.Keys
    {
      Linked() && InUse(handles, target, held)
    }

    ghost predicate Linked()
      reads this, handles.Values, freelist, target.Keys
    {
      CountsOk() && TargetsOk() && FreeOk() && PinsOk() && StoreOk()
    }

    constructor (blockSize: nat, stored: seq<Block>)
      requires forall i :: 0 <= i < |stored| ==> |stored[i]| == blockSize
      ensures Valid() && target == map[] && handles == map[] && freelist == [] && this.blockSize == blockSize && Seen() == stored && spoiled == {}
    {
      this.blockSize, this.stored := blockSize, stored;
      handles, freelist, pins, memory, dirty, target, held, spoiled := map[], [], map[], map[], {}, map[], None, {};
    }

    /** Handles to the same block share everything. */
    lemma SameBlock(h: BlockHandle, g: BlockHandle)
      requires Valid() && h in target && g in target && h.impl != null && g.impl != null
      ensures h.impl.index == g.impl.index <==> h.impl == g.impl
    {}

    /** A block is pinned, and pinned once, exactly while some handle refers to it. */
    lemma PinnedWhileUsed(i: nat)
      requires Valid()
      ensures PinCount(pins, i) == One(exists h :: h in target && target[h] == Some(i))
    {}

    /** The managed blocks are those that handles refer to. */
    lemma ManagedIfUsed(i: nat)
      requires Valid()
      ensures i in handles <==> exists h :: h in target && target[h] == Some(i)
    {
      hide RefCount;
      CountZero(target, i);
    }

    // ---- Handle objects.

    method AllocateInternal() returns (x: Internal)
      requires Valid()
      modifies `freelist
      ensures Valid() && x.refcount == 0 && x !in freelist && (forall i :: i in handles ==> handles[i] != x)
      ensures fresh(x) || x in old(freelist)
      ensures forall y :: y in freelist ==> y in old(freelist)
      ensures if old(freelist) == [] then fresh(x) && freelist == [] else [x] + freelist == old(freelist)
    {
      hide RefCount;
      if |freelist| > 0 {
        x := freelist[0];
        freelist := freelist[1..];
        return;
      }
      x := new Internal();
    }

    method FreeInternal(x: Internal)
      requires Ok() && x !in freelist && forall i :: i in handles ==> handles[i] != x
      modifies `freelist, x
      ensures Ok() && freelist == if |old(freelist)| < MAX_FREE then [x] + old(freelist) else old(freelist)
    {
      hide RefCount;
      if |freelist| >= MAX_FREE {
        return;
      }
      x.refcount, x.index := 0, 0;
      freelist := [x] + freelist;
    }

    /** A new handle to a managed block. */
    method Attach(i: nat) returns (h: BlockHandle)
      requires Linked() && i in handles && InUse(handles - {i}, target, held) && held == None
      modifies `target, `held, handles[i]
      ensures Valid() && fresh(h) && target == old(target)[h := Some(i)]
    {
      hide RefCount, Manager.Linked, InUse;
      IncRef(i);
      h := Empty();
      HeldIsManaged();
      Settle(h, handles[i]);
    }

    /** A block was pinned: from now on it is managed, without any references yet. */
    method Manage(i: nat, x: Internal)
      requires Valid() && i !in handles && x !in freelist && (forall j :: j in handles ==> handles[j] != x) && i in memory
      modifies `handles, `pins, x
      ensures Linked() && InUse(handles - {i}, target, held) && handles == old(handles)[i := x]
    {
      hide RefCount, Manager.CountsOk, Manager.TargetsOk, Manager.FreeOk, Manager.PinsOk;
      x.refcount, x.index := 0, i;
      Insert(i, x);
    }

    method Insert(i: nat, x: Internal)
      requires Valid() && i !in handles && x !in freelist && i in memory && x.refcount == 0 && x.index == i
      modifies `handles, `pins
      ensures Linked() && InUse(handles - {i}, target, held) && handles == old(handles)[i := x]
    {
      hide RefCount, Agree, Manager.StoreOk;
      CountZero(target, i);
      pins := pins[i := PinCount(pins, i) + 1];
      handles := handles[i := x];
      assert handles - {i} == old(handles);
    }

    /** A handle stops referring to its block; the last one unpins the block. */
    method Release(h: BlockHandle)
      requires Ok() && h in target && target[h].Some?
      modifies `target, `handles, `pins, `freelist, h, handles[target[h].value]
      ensures Ok() && h.impl == null && target == old(target)[h := None]
      ensures forall y :: y in freelist ==> y in old(freelist) || y == old(h.impl)
      ensures handles == if old(handles[target[h].value].refcount) == 1 then old(handles) - {old(target)[h].value} else old(handles)
    {
      hide RefCount, Agree, InUse, Manager.Linked;
      var x := Detach(h);
      if x.refcount == 0 {
        Unmanage(x);
      }
    }

    /** A handle gives its reference back. */
    method Detach(h: BlockHandle) returns (x: Internal)
      requires Ok() && h in target && target[h].Some?
      modifies `target, h, handles[target[h].value]
      ensures Linked() && h.impl == null && target == old(target)[h := None]
      ensures x == old(h.impl) && x.index == old(target)[h].value && x.index in handles && handles[x.index] == x && x.refcount + 1 == old(x.refcount)
      ensures if x.refcount == 0 then InUse(handles - {x.index}, target, held) else Ok()
    {
      hide RefCount, Agree, Manager.PinsOk, Manager.FreeOk, Manager.StoreOk;
      x := h.impl;
      ghost var i := target[h].value;
      RefDropped(target, h, i);
      OthersDiffer(handles[i]);
      h.impl := null;
      x.refcount := x.refcount - 1;
      target := target[h := None];
    }

    /** Unpins a block without references. */
    method Unmanage(x: Internal)
      requires Linked() && x.index in handles && handles[x.index] == x && x.refcount == 0
      requires InUse(handles - {x.index}, target, held)
      modifies `handles, `pins, `freelist, x
      ensures Ok() && handles == old(handles) - {old(x.index)}
      ensures forall y :: y in freelist ==> y in old(freelist) || y == x
    {
      hide RefCount, Agree, Manager.StoreOk;
      ghost var i := x.index;
      CountZero(target, i);
      OthersDiffer(x);
      pins := pins[x.index := PinCount(pins, x.index) - 1];
      handles := handles - {x.index};
      FreeInternal(x);
    }

    lemma OthersDiffer(x: Internal)
      requires CountsOk() && FreeOk() && x.index in handles && handles[x.index] == x
      ensures x !in freelist && forall j :: j in handles && j != x.index ==> handles[j] != x
    {}

    // ---- The engine.

    lemma InMemory(i: nat)
      requires Valid() && i in handles
      ensures i in memory && i < |stored|
    {}

    /** Brings a block of the file into memory if it is not there. */
    method Load(i: nat)
      requires Valid() && i < |stored|
      modifies `memory
      ensures Valid() && i in memory && Seen() == old(Seen()) && (i in old(memory) ==> memory == old(memory))
    {
      hide RefCount, Agree, SeenBlocks;
      if i !in memory {
        SeenLoaded(memory, dirty, stored, spoiled, blockSize, i);
        memory := memory[i := stored[i]];
      }
    }

    /** Replaces the content of a block and marks it as changed, which may fail. */
    method Replace(i: nat, data: Block) returns (ok: bool)
      requires Valid() && i < |stored| && |data| == blockSize
      modifies `memory, `dirty, `spoiled
      ensures Valid() && i in memory && Seen() == old(Seen())[i := data] && i in dirty + spoiled
      ensures ok ==> i in dirty && spoiled == old(spoiled) - {i}
      ensures !ok ==> dirty == old(dirty) && spoiled == if i in dirty then old(spoiled) else old(spoiled) + {i}
    {
      hide RefCount, Agree, SeenBlocks, Manager.CountsOk, Manager.TargetsOk, Manager.FreeOk, InUse;
      SeenReplaced(memory, dirty, stored, spoiled, blockSize, i, data);
      ok := *;
      memory := memory[i := data];
      if ok {
        dirty, spoiled := dirty + {i}, spoiled - {i};
      } else if i !in dirty {
        spoiled := spoiled + {i};
      }
    }

    /**
    Returns a handle to a block. Without `init` the block is read if it is not in memory; otherwise its
    content is replaced. Pinning the block and marking it as changed may fail, and a failure leaves
    handles and pins as they were.
    */
    method Populate(i: nat, init: Option<Block>) returns (r: Result<BlockHandle, Error>)
      requires Valid() && (init.Some? ==> |init.value| == blockSize)
      modifies this, handles.Values, freelist
      ensures forall j :: j in handles ==> handles[j] in old(handles).Values || handles[j] in old(freelist) || fresh(handles[j])
      ensures forall x :: x in freelist ==> x in old(freelist) || fresh(x)
      ensures Valid() && stored == old(stored)
      ensures r.Success? ==> fresh(r.value) && target == old(target)[r.value := Some(i)] && i in handles && i < |stored|
      ensures r.Success? ==> handles.Keys == old(handles).Keys + {i} && forall j :: j in old(handles) ==> handles[j] == old(handles)[j]
      ensures r.Failure? ==> r.error == IoError && target == old(target) && handles == old(handles)
      ensures i in old(handles) && init.None? ==> r.Success?
      ensures init.None? ==> Seen() == old(Seen()) && dirty == old(dirty) && spoiled == old(spoiled)
      ensures init.Some? && r.Success? ==> Seen() == old(Seen())[i := init.value] && i in dirty && spoiled == old(spoiled) - {i}
      ensures init.Some? && r.Failure? ==>
                || (Seen() == old(Seen()) && dirty == old(dirty) && spoiled == old(spoiled) && i !in handles)
                || (i < |stored| && Seen() == old(Seen())[i := init.value] && i in dirty + spoiled && spoiled <= old(spoiled) + {i} && dirty == old(dirty))
    {
      hide RefCount, Manager.Linked, InUse, Agree, SeenBlocks;
      if i in handles {
        InMemory(i);
        if init.Some? {
          var ok := Replace(i, init.value);
          if !ok {
            return Failure(IoError);
          }
        }
        StillInUse(handles, target, i);
        var h := Attach(i);
        return Success(h);
      }
      var x := AllocateInternal();
      var ok := Obtain(i, init);
      if !ok {
        FreeInternal(x);
        return Failure(IoError);
      }
      Manage(i, x);
      var h := Attach(i);
      return Success(h);
    }

    /** Pins a block that is not pinned, with its content from the file or a new one. */
    method Obtain(i: nat, init: Option<Block>) returns (ok: bool)
      requires Valid() && i !in handles && (init.Some? ==> |init.value| == blockSize)
      modifies `memory, `dirty, `spoiled
      ensures Valid() && (ok ==> i in memory && i < |stored|)
      ensures init.None? ==> Seen() == old(Seen()) && dirty == old(dirty) && spoiled == old(spoiled)
      ensures init.Some? && ok ==> Seen() == old(Seen())[i := init.value] && i in dirty && spoiled == old(spoiled) - {i}
      ensures init.Some? && !ok ==>
                || (Seen() == old(Seen()) && dirty == old(dirty) && spoiled == old(spoiled))
                || (i < |stored| && Seen() == old(Seen())[i := init.value] && i in dirty + spoiled && spoiled <= old(spoiled) + {i} && dirty == old(dirty))
    {
      hide RefCount, Manager.Linked, InUse, Agree, SeenBlocks;
      var pinFails: bool := *;
      if pinFails || i >= |stored| {
        return false;
      }
      if init.None? {
        Load(i);
        return true;
      }
      ok := Replace(i, init.value);
    }

    /** Takes a block out of memory that is not pinned; a changed one is written to the file. */
    method Evict(i: nat)
      requires Valid() && i !in handles
      modifies `memory, `dirty, `stored, `spoiled
      ensures Valid() && |stored| == |old(stored)| && i !in memory && i !in dirty && spoiled == old(spoiled) - {i}
      ensures Seen() == if i in old(spoiled) then old(Seen())[i := old(stored)[i]] else old(Seen())
    {
      hide RefCount, Agree, SeenBlocks, Manager.CountsOk, Manager.TargetsOk, Manager.FreeOk, InUse;
      SeenEvicted(memory, dirty, stored, spoiled, blockSize, i);
      if i in dirty {
        stored := stored[i := memory[i]];
      }
      memory, dirty, spoiled := memory - {i}, dirty - {i}, spoiled - {i};
    }

    /** New blocks at the end of the file. */
    method Grow(n: nat)
      requires Valid()
      modifies `stored
      ensures Valid() && Seen() == old(Seen()) + seq(n, _ => Zeros(blockSize))
    {
      hide RefCount, Agree, SeenBlocks, Manager.CountsOk, Manager.TargetsOk, Manager.FreeOk, InUse;
      SeenGrown(memory, dirty, stored, spoiled, blockSize, n);
      stored := stored + seq(n, _ => Zeros(blockSize));
    }

    /** The three ways to get a handle from the engine. */
    method Read(index: Option<nat>) returns (r: Result<BlockHandle, Error>)
      requires Valid()
      modifies this, handles.Values, freelist
      ensures forall j :: j in handles ==> handles[j] in old(handles).Values || handles[j] in old(freelist) || fresh(handles[j])
      ensures forall x :: x in freelist ==> x in old(freelist) || fresh(x)
      ensures Valid() && (index.None? <==> r == Failure(BadArgument)) && stored == old(stored)
      ensures Seen() == old(Seen()) && dirty == old(dirty) && spoiled == old(spoiled)
      ensures r.Success? ==> index.Some? && fresh(r.value) && target == old(target)[r.value := index] && index.value < |stored|
      ensures r.Success? ==> Data(r.value) == old(Seen())[index.value]
      ensures r.Failure? ==> target == old(target) && handles == old(handles)
      ensures index.Some? && index.value in old(handles) ==> r.Success?
    {
      hide RefCount, Manager.Linked;
      if index.None? {
        return Failure(BadArgument);
      }
      r := Populate(index.value, None);
      if r.Success? {
        DataIsSeen(r.value);
      }
    }

    method Overwrite(index: Option<nat>, data: seq<byte>) returns (r: Result<BlockHandle, Error>)
      requires Valid()
      modifies this, handles.Values, freelist
      ensures forall j :: j in handles ==> handles[j] in old(handles).Values || handles[j] in old(freelist) || fresh(handles[j])
      ensures forall x :: x in freelist ==> x in old(freelist) || fresh(x)
      ensures Valid() && (index.None? || |data| > blockSize <==> r == Failure(BadArgument)) && stored == old(stored)
      ensures r.Success? ==> index.Some? && fresh(r.value) && target == old(target)[r.value := index] && index.value < |stored| && |data| <= blockSize
      ensures r.Success? ==> Seen() == old(Seen())[index.value := Padded(data)] && index.value in dirty && spoiled == old(spoiled) - {index.value}
      ensures r.Success? ==> Data(r.value) == Padded(data)
      ensures r.Failure? ==> target == old(target) && handles == old(handles) && dirty == old(dirty)
      ensures r == Failure(BadArgument) ==> Seen() == old(Seen()) && spoiled == old(spoiled)
      ensures r.Failure? ==>
                || (Seen() == old(Seen()) && spoiled == old(spoiled))
                || (index.Some? && |data| <= blockSize && index.value < |stored| && Seen() == old(Seen())[index.value := Padded(data)]
                    && index.value in dirty + spoiled && spoiled <= old(spoiled) + {index.value})
    {
      hide RefCount, Manager.Linked;
      if index.None? || |data| > blockSize {
        return Failure(BadArgument);
      }
      r := Populate(index.value, Some(Padded(data)));
      if r.Success? {
        DataIsSeen(r.value);
      }
    }

    /** Bytes at the start of a block that is zero otherwise. */
    function Padded(data: seq<byte>): (b: Block)
      requires |data| <= blockSize
      ensures |b| == blockSize && b[..|data|] == data && forall k :: |data| <= k < blockSize ==> b[k] == 0
    {
      data + Zeros(blockSize - |data|)
    }

    lemma DataSize(h: BlockHandle)
      requires Valid() && h in target && target[h].Some?
      ensures |Data(h)| == blockSize
    {}

    lemma SpoiledInFile(i: nat)
      requires Valid()
      ensures i in spoiled ==> i < |stored|
    {}

    lemma DataIsSeen(h: BlockHandle)
      requires Valid() && h in target && target[h].Some?
      ensures target[h].value < |stored| && Data(h) == Seen()[target[h].value]
    {}

    // ---- The application's handles.

    /** Copy construction. */
    method Copy(other: BlockHandle) returns (h: BlockHandle)
      requires Valid() && other in target
      modifies `target, `held, handles.Values
      ensures Valid() && fresh(h) && target == old(target)[h := old(target)[other]] && handles == old(handles)
    {
      hide RefCount, Agree, Manager.PinsOk, Manager.FreeOk, Manager.StoreOk;
      if other.impl == null {
        h := Empty();
        return;
      }
      StillInUse(handles, target, target[other].value);
      h := Attach(other.impl.index);
    }

    /** Default construction. */
    method Empty() returns (h: BlockHandle)
      requires Ok()
      modifies `target
      ensures Ok() && fresh(h) && target == old(target)[h := None] && handles == old(handles)
    {
      hide RefCount, Agree, Manager.PinsOk, Manager.FreeOk, Manager.StoreOk;
      h := new BlockHandle(null);
      RefNone(target, h);
      target := target[h := None];
    }

    /** Destruction. */
    method Drop(h: BlockHandle)
      requires Valid() && h in target
      modifies `target, `handles, `pins, `freelist, handles.Values, h
      ensures Valid() && target == old(target) - {h} && handles.Keys <= old(handles).Keys && forall i :: i in handles ==> handles[i] == old(handles)[i]
      ensures forall x :: x in freelist ==> x in old(freelist) || x in old(handles).Values
    {
      hide RefCount, Manager.Linked, InUse;
      TargetOf(h);
      if h.impl != null {
        Release(h);
      }
      Forget(h);
    }

    method Forget(h: BlockHandle)
      requires Valid() && h in target && target[h] == None
      modifies `target
      ensures Valid() && target == old(target) - {h}
    {
      hide RefCount, Agree, Manager.PinsOk, Manager.FreeOk, Manager.StoreOk;
      RefGone(target, h);
      target := target - {h};
    }

    /** Move construction: the new handle takes over the reference. */
    method Move(other: BlockHandle) returns (h: BlockHandle)
      requires Valid() && other in target
      modifies `target, other
      ensures Valid() && fresh(h) && handles == old(handles)
      ensures target == old(target)[other := None][h := old(target)[other]]
    {
      hide RefCount, Manager.Linked, InUse;
      h := Empty();
      TakeOver(h, other);
      assert target == old(target)[other := None][h := old(target)[other]];
    }

    /** Takes an additional reference that no handle of the application has yet. */
    method IncRef(i: nat)
      requires Linked() && i in handles && InUse(handles - {i}, target, held) && held == None
      modifies `held, handles[i]
      ensures Ok() && held == Some(i)
    {
      hide RefCount, Agree, Manager.PinsOk, Manager.FreeOk, Manager.StoreOk;
      OthersDiffer(handles[i]);
      handles[i].refcount := handles[i].refcount + 1;
      held := Some(i);
    }

    /** A handle takes over the additional reference. */
    method Settle(h: BlockHandle, x: Internal)
      requires Ok() && held.Some? && h in target && target[h] == None && handles[held.value] == x
      modifies `held, `target, h
      ensures Valid() && target == old(target)[h := old(held)]
    {
      hide RefCount, Agree, Manager.PinsOk, Manager.FreeOk, Manager.StoreOk;
      ghost var i := held.value;
      RefAdded(target, h, i);
      h.impl := x;
      target := target[h := Some(i)];
      held := None;
    }

    /** Copy assignment, also of a handle to itself. */
    method Assign(h: BlockHandle, other: BlockHandle)
      requires Valid() && h in target && other in target
      modifies `target, `held, `handles, `pins, `freelist, handles.Values, h
      ensures Valid() && target == old(target)[h := old(target)[other]]
      ensures handles.Keys <= old(handles).Keys && forall i :: i in handles ==> handles[i] == old(handles)[i]
      ensures forall x :: x in freelist ==> x in old(freelist) || x in old(handles).Values
    {
      hide RefCount, Manager.Linked, InUse;
      TargetOf(h);
      TargetOf(other);
      var x := other.impl;
      if x != null {
        UsedWithout(x.index);
        IncRef(x.index);
      }
      if h.impl != null {
        Release(h);
      }
      if x != null {
        HeldIsManaged();
        Settle(h, x);
      }
    }

    /** Move assignment; a handle that is moved to itself stays as it is. */
    method AssignMove(h: BlockHandle, other: BlockHandle)
      requires Valid() && h in target && other in target
      modifies `target, `handles, `pins, `freelist, handles.Values, h, other
      ensures Valid()
      ensures target == if h == other then old(target) else old(target)[other := None][h := old(target)[other]]
    {
      hide RefCount, Manager.Linked, InUse;
      if h == other {
        return;
      }
      TargetOf(h);
      if h.impl != null {
        Release(h);
      }
      TakeOver(h, other);
    }

    /** An empty handle takes over the reference of another one. */
    method TakeOver(h: BlockHandle, other: BlockHandle)
      requires Valid() && h in target && other in target && h != other && target[h] == None
      modifies `target, h, other
      ensures Valid() && target == old(target)[other := None][h := old(target)[other]]
    {
      hide RefCount, Agree, Manager.PinsOk, Manager.FreeOk, Manager.StoreOk;
      RefMoved(target, h, other);
      h.impl := other.impl;
      other.impl := null;
      target := target[other := None][h := target[other]];
    }

    lemma UsedWithout(i: nat)
      requires Valid()
      ensures Linked() && InUse(handles - {i}, target, held)
    {}

    lemma HeldIsManaged()
      requires Ok()
      ensures held.Some? ==> held.value in handles
    {}

    lemma TargetOf(h: BlockHandle)
      requires Valid() && h in target
      ensures h.impl == null <==> target[h] == None
      ensures h.impl != null ==> h.impl.index in handles && target[h] == Some(h.impl.index) && handles[h.impl.index] == h.impl
    {}

    // ---- Content.

    /** The bytes that a handle gives access to. */
    ghost function Data(h: BlockHandle): Block
      requires Valid() && h in target && target[h].Some?
      reads this, handles.Values, freelist, target.Keys
    {
      memory[target[h].value]
    }

    /** Writes bytes of a block through a handle. All handles to the same block see them, and no other handle does. */
    method Write(h: BlockHandle, offset: nat, bytes: seq<byte>) returns (r: Outcome<Error>)
      requires Valid() && h in target && target[h].Some? && offset + |bytes| <= |Data(h)|
      modifies `memory, `dirty, `spoiled
      ensures Valid()
      ensures r.Pass? ==> forall g :: g in target && target[g].Some? ==>
                Data(g) == if target[g] == target[h] then Splice(old(Data(h)), offset, bytes) else old(Data(g))
      ensures r.Pass? ==> target[h].value < |stored| && Seen() == old(Seen())[target[h].value := Splice(old(Data(h)), offset, bytes)]
      ensures r.Pass? ==> target[h].value in dirty && spoiled == old(spoiled) - {target[h].value}
      ensures r.Fail? ==> r.error == IoError && memory == old(memory) && dirty == old(dirty) && spoiled == old(spoiled)
    {
      hide RefCount, Manager.CountsOk, Manager.FreeOk, InUse, SeenBlocks;
      TargetOf(h);
      var dirtyFails: bool := *;
      if dirtyFails {
        return Fail(IoError);
      }
      var i := h.impl.index;
      SeenReplaced(memory, dirty, stored, spoiled, blockSize, i, Splice(memory[i], offset, bytes));
      memory, dirty, spoiled := memory[i := Splice(memory[i], offset, bytes)], dirty + {i}, spoiled - {i};
      return Pass;
    }
  }

  /** A reference moves from one handle to another one that had none. */
  lemma RefMoved(target: Targets, h: BlockHandle, other: BlockHandle)
    requires other in target && h != other && (h !in target || target[h] == None)
    ensures forall i: nat :: RefCount(target[other := None][h := target[other]], i) == RefCount(target, i)
  {
    hide RefCount;
    forall i: nat ensures RefCount(target[other := None][h := target[other]], i) == RefCount(target, i) {
      CountSet(target, other, None, i);
      CountSet(target[other := None], h, target[other], i);
    }
  }

  lemma RefNone(target: Targets, h: BlockHandle)
    requires h !in target || target[h] == None
    ensures forall i: nat :: RefCount(target[h := None], i) == RefCount(target, i)
  {
    hide RefCount;
    forall i: nat ensures RefCount(target[h := None], i) == RefCount(target, i) {
      CountSet(target, h, None, i);
    }
  }

  lemma RefGone(target: Targets, h: BlockHandle)
    requires h in target && target[h] == None
    ensures forall i: nat :: RefCount(target - {h}, i) == RefCount(target, i)
  {
    forall i: nat ensures RefCount(target - {h}, i) == RefCount(target, i) {
      assert Refs(target - {h}, i) == Refs(target, i);
    }
  }

  lemma StillInUse(handles: map<nat, Internal>, target: Targets, i: nat)
    requires InUse(handles, target, None)
    ensures InUse(handles - {i}, target, None)
  {}
}
