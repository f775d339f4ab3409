/**
Whole runs of the heap: every answer is the one that a plain map from references to bytes would give,
except that objects on full pages cannot be freed.
*/
module HeapRuns {
  import opened Blocks
  import opened BigEndian
  import opened HeapState
  import opened HeapIndexes
  import opened Heaps
  import opened Wrappers
  import P = Pages

  type Objects = map<Ref, seq<byte>>

  datatype Request =
    | Allocate(bytes: Option<seq<byte>>, size: nat)
    | Store(ref: Option<Ref>, data: seq<byte>)
    | Load(ref: Option<Ref>, size: nat)
    | Free(ref: Option<Ref>)

  datatype Answer =
    | Allocated(ref: Result<Ref, HeapError>)
    | Loaded(data: Result<seq<byte>, HeapError>)
    | Done(outcome: Outcome<HeapError>)

  /** The live objects, and the pages without any effective free space. */
  datatype State = State(objects: Objects, full: set<nat>)

  ghost predicate Wellformed(q: Request) {
    q.Allocate? ==> LARGE_HEADER + q.size <= U32_END && (q.bytes.Some? ==> |q.bytes.value| == q.size)
  }

  /** The requests that a map would not serve. */
  ghost predicate Refused(s: State, q: Request, bs: nat) {
    match q
    case Allocate(_, size) => size == 0 || TooLarge(size, bs)
    case Store(ref, data) => ref.None? || ref.value !in s.objects || |data| != |s.objects[ref.value]|
    case Load(ref, size) => ref.None? || ref.value !in s.objects || size != |s.objects[ref.value]|
    case Free(ref) => ref.Some? && (ref.value !in s.objects || (!ref.value.large && ref.value.block in s.full))
  }

  /** Whether the answer is an error. */
  predicate Failed(a: Answer) {
    match a
    case Allocated(ref) => ref.Failure?
    case Loaded(data) => data.Failure?
    case Done(outcome) => outcome.Fail?
  }

  /**
  One request, in a heap with blocks of `bs` bytes that may grow or not. It fails exactly when a map would
  refuse it, or for want of space, and then nothing changes. Only an allocation can fill a page.
  */
  ghost predicate Explains(s: State, q: Request, a: Answer, s': State, bs: nat, canGrow: bool) {
    && (if q.Allocate? then Refused(s, q, bs) ==> Failed(a) else Failed(a) <==> Refused(s, q, bs))
    && (Failed(a) ==> s' == s)
    && match q
       case Allocate(bytes, size) =>
         && a.Allocated? && (bytes.Some? ==> |bytes.value| == size)
         && (Failed(a) && !Refused(s, q, bs) ==> !canGrow || bs < MIN_PAGE_SIZE)
         && (!Failed(a) ==>
               && a.ref.value !in s.objects && s'.objects == s.objects[a.ref.value := Initial(bytes, size)]
               && (a.ref.value.large <==> 4 * size > 3 * bs % U32_END)
               && if a.ref.value.large then s'.full == s.full else Filled(s.full, s'.full, a.ref.value.block))
       case Store(ref, data) =>
         a.Done? && (!Failed(a) ==> ref.Some? && s' == State(s.objects[ref.value := data], s.full))
       case Load(ref, size) =>
         a.Loaded? && (!Failed(a) ==> ref.Some? && ref.value in s.objects && a.data.value == s.objects[ref.value] && s' == s)
       case Free(ref) =>
         a.Done? && (!Failed(a) ==> s' == State(if ref.None? then s.objects else s.objects - {ref.value}, s.full))
  }

  /**
  A request that ran out of blocks and left an index inconsistent: an allocation that tore the root of an
  index, or a free that found no node for the new entry of its page.
  */
  ghost predicate Breaks(s: State, q: Request, a: Answer, objects: Objects, kept: set<nat>) {
    match q
    case Allocate(_, _) => a == Allocated(Failure(BadAlloc)) && objects == Surviving(s.objects, kept)
    case Free(ref) => a == Done(Fail(BadAlloc)) && ref.Some? && ref.value in s.objects && objects == s.objects - {ref.value}
    case _ => false
  }

  ghost function StateOf(heap: Heap): State
    reads heap`objects, heap`pageMap, heap`freeMap
  {
    State(heap.objects, FullPages(heap.pageMap, heap.freeMap))
  }

  lemma FullAt(heap: Heap, ref: Ref)
    requires heap.Valid() && ref in heap.objects && !ref.large
    ensures ref.block in heap.content
    ensures P.EffectiveFree(heap.content[ref.block].page) == 0 <==> ref.block in FullPages(heap.pageMap, heap.freeMap)
  {
    hide Structure, FreeOk, Flattened, NoEmptyPages, P.EffectiveFree, FullPages, Heap.Owning, Heap.PagesListed, Heap.FreeListed, Heap.Noded;
    heap.IsLive(ref);
    PageOf(heap.alloc.engine.blocks, heap.alloc.engine.blockSize, heap.pageMap, heap.content, heap.home, ref.block);
    SpaceIsCounted(heap.alloc.engine.blocks[ref.block], heap.content[ref.block]);
    FullIs(heap.freeMap, heap.pageMap, heap.content, ref.block);
  }

  lemma SpaceIsCounted(b: Block, x: Content)
    requires PageHolds(b, x)
    ensures P.EffectiveFree(x.page) >= 0
  {}

  method PerformAllocate(heap: Heap, bytes: Option<seq<byte>>, size: nat) returns (a: Answer)
    requires heap.Valid() && Wellformed(Allocate(bytes, size))
    modifies heap, heap.alloc, heap.alloc.engine
    ensures (heap.damaged || heap.Valid()) && heap.alloc.canGrow == old(heap.alloc.canGrow) && (heap.alloc.canGrow ==> !heap.damaged)
    ensures !heap.damaged ==>
              Explains(old(StateOf(heap)), Allocate(bytes, size), a, StateOf(heap), heap.alloc.engine.blockSize, heap.alloc.canGrow)
    ensures heap.damaged ==> heap.Wreck() && Breaks(old(StateOf(heap)), Allocate(bytes, size), a, heap.objects, heap.pageMap.Keys)
  {
    hide Heap.Valid, Heap.Wreck, Heap.Mine, Step, FullPages, Filled, Weight, Initial, Surviving;
    var ref := heap.Allocate(bytes, size);
    a := Allocated(ref);
  }

  method PerformFree(heap: Heap, ref: Option<Ref>) returns (a: Answer)
    requires heap.Valid()
    modifies heap, heap.alloc, heap.alloc.engine
    ensures (heap.damaged || heap.Valid()) && heap.alloc.canGrow == old(heap.alloc.canGrow) && (heap.alloc.canGrow ==> !heap.damaged)
    ensures !heap.damaged ==> Explains(old(StateOf(heap)), Free(ref), a, StateOf(heap), heap.alloc.engine.blockSize, heap.alloc.canGrow)
    ensures heap.damaged ==> heap.Sound() && Breaks(old(StateOf(heap)), Free(ref), a, heap.objects, heap.pageMap.Keys)
  {
    hide Heap.Valid, Heap.Sound, Heap.Indexed, Heap.Mine, Step, FullPages, Weight, P.EffectiveFree;
    if ref.Some? && ref.value in heap.objects && !ref.value.large {
      FullAt(heap, ref.value);
    }
    var outcome := heap.Free(ref);
    assert outcome.Fail? ==> outcome.error.BadAlloc? || outcome.error.BadArgument? || outcome.error.AssertionFailed?;
    a := Done(outcome);
  }

  method PerformOther(heap: Heap, q: Request) returns (a: Answer)
    requires heap.Valid() && (q.Store? || q.Load?)
    modifies heap, heap.alloc.engine
    ensures heap.Valid() && heap.alloc.canGrow == old(heap.alloc.canGrow) && !heap.damaged
    ensures Explains(old(StateOf(heap)), q, a, StateOf(heap), heap.alloc.engine.blockSize, heap.alloc.canGrow)
  {
    hide Heap.Valid, Heap.Sound, Heap.Mine, Step, FullPages;
    ValidParts(heap);
    match q
    case Store(ref, data) =>
      var outcome := heap.Store(ref, data);
      ValidParts(heap);
      a := Done(outcome);
    case Load(ref, size) =>
      var data := heap.Load(ref, size);
      a := Loaded(data);
  }

  lemma ValidParts(heap: Heap)
    requires heap.Valid()
    ensures heap.Sound() && !heap.damaged
  {}

  /** Performs one request. */
  method Perform(heap: Heap, q: Request) returns (a: Answer)
    requires heap.Valid() && Wellformed(q)
    modifies heap, heap.alloc, heap.alloc.engine
    ensures (heap.damaged || heap.Valid()) && heap.alloc.canGrow == old(heap.alloc.canGrow) && (heap.alloc.canGrow ==> !heap.damaged)
    ensures !heap.damaged ==> Explains(old(StateOf(heap)), q, a, StateOf(heap), heap.alloc.engine.blockSize, heap.alloc.canGrow)
    ensures heap.damaged ==> Breaks(old(StateOf(heap)), q, a, heap.objects, heap.pageMap.Keys)
  {
    hide Heap.Valid, Heap.Wreck, Heap.Sound, Explains, Breaks, StateOf;
    match q
    case Allocate(bytes, size) => a := PerformAllocate(heap, bytes, size);
    case Free(ref) => a := PerformFree(heap, ref);
    case _ => a := PerformOther(heap, q);
  }

  /**
  Performs requests, with compactions, page and block allocations as they come, up to one that breaks an
  index. With an allocator that may grow the file there is none.
  */
  method Execute(heap: Heap, requests: seq<Request>) returns (answers: seq<Answer>, ghost trace: seq<State>)
    requires heap.Valid() && forall q :: q in requests ==> Wellformed(q)
    modifies heap, heap.alloc, heap.alloc.engine
    ensures 0 < |trace| && trace[0] == old(StateOf(heap)) && heap.alloc.canGrow == old(heap.alloc.canGrow)
    ensures if heap.damaged then |answers| == |trace| <= |requests| else heap.Valid() && |answers| + 1 == |trace| == |requests| + 1
    ensures forall i :: 0 <= i < |trace| - 1 ==>
              Explains(trace[i], requests[i], answers[i], trace[i + 1], heap.alloc.engine.blockSize, heap.alloc.canGrow)
    ensures !heap.damaged ==> trace[|requests|] == StateOf(heap) && heap.objectsCount == |heap.objects| && heap.objectsSize == Weight(heap.objects)
    ensures heap.damaged ==>
              var n := |trace| - 1; Breaks(trace[n], requests[n], answers[n], heap.objects, heap.pageMap.Keys) && !heap.alloc.canGrow
  {
    hide Heap.Intact, Explains, Breaks, Wellformed, Weight, StateOf;
    answers, trace := [], [StateOf(heap)];
    NotDamaged(heap);
    while |answers| < |requests|
      invariant |trace| == |answers| + 1 <= |requests| + 1 && heap.Valid() && !heap.damaged && heap.alloc.canGrow == old(heap.alloc.canGrow)
      invariant trace[0] == old(StateOf(heap)) && trace[|answers|] == StateOf(heap)
      invariant forall j :: 0 <= j < |answers| ==>
                  Explains(trace[j], requests[j], answers[j], trace[j + 1], heap.alloc.engine.blockSize, heap.alloc.canGrow)
      decreases |requests| - |answers|
    {
      var a := Perform(heap, requests[|answers|]);
      answers := answers + [a];
      if heap.damaged {
        return;
      }
      trace := trace + [StateOf(heap)];
    }
  }

  lemma NotDamaged(heap: Heap)
    requires heap.Valid()
    ensures !heap.damaged
  {}

  /** Once a page is full, it stays full, and its objects stay live. */
  lemma {:induction false} StuckForever(requests: seq<Request>, answers: seq<Answer>, trace: seq<State>, bs: nat, canGrow: bool, i: nat, j: nat, ref: Ref)
    requires i <= j < |trace| <= |requests| + 1 && |trace| <= |answers| + 1
    requires forall k :: 0 <= k < |trace| - 1 ==> Explains(trace[k], requests[k], answers[k], trace[k + 1], bs, canGrow)
    requires ref in trace[i].objects && !ref.large && ref.block in trace[i].full
    ensures ref in trace[j].objects && ref.block in trace[j].full
    decreases j - i
  {
    hide Initial, TooLarge;
    if i < j {
      assert Explains(trace[i], requests[i], answers[i], trace[i + 1], bs, canGrow);
      StuckForever(requests, answers, trace, bs, canGrow, i + 1, j, ref);
    }
  }
}
