/**
Whole runs of an application that reads and writes blocks through handles: what a handle shows is what was last
written to its block, whatever was evicted in between.
*/
module HandleRuns {
  import opened Blocks
  import opened Handles
  import opened Wrappers

  /** Operations name handles by the number of the step that made them. */
  datatype Operation =
    | Read(index: Option<nat>)
    | Overwrite(index: Option<nat>, data: seq<byte>)
    | Write(id: nat, offset: nat, bytes: seq<byte>)
    | Copy(id: nat)
    | Assign(id: nat, from: nat)
    | Drop(id: nat)
    | Evict(block: nat)
    | Grow(n: nat)

  /** The blocks, the block of each handle, and the blocks of which a change could not be recorded. */
  datatype State = State(blocks: seq<Block>, refs: map<nat, Option<nat>>, spoiled: set<nat>)

  /** `data` at the start of a block that is zero otherwise. */
  ghost predicate Fills(b: Block, data: seq<byte>, bs: nat) {
    |data| <= bs == |b| && b[..|data|] == data && forall k :: |data| <= k < bs ==> b[k] == 0
  }

  /** A change of one block. */
  ghost predicate Changes(s: State, s': State, i: nat, b: Block) {
    i < |s.blocks| && s'.blocks == s.blocks[i := b]
  }

  /** What an operation does, and whether it succeeds. Only what is read from or written to the file can fail. */
  ghost predicate Explains(s: State, op: Operation, step: nat, ok: bool, s': State, bs: nat) {
    match op
    case Read(index) =>
      && s'.blocks == s.blocks && s'.spoiled == s.spoiled && s'.refs == (if ok then s.refs[step := index] else s.refs)
      && (ok ==> index.Some? && index.value < |s.blocks|) && (index.Some? && index in s.refs.Values ==> ok)
    case Overwrite(index, data) =>
      if ok then
        && index.Some? && s'.refs == s.refs[step := index] && s'.spoiled == s.spoiled - {index.value}
        && exists b :: Fills(b, data, bs) && Changes(s, s', index.value, b)
      else
        && s'.refs == s.refs
        && (s' == s || (index.Some? && s'.spoiled <= s.spoiled + {index.value} && exists b :: Fills(b, data, bs) && Changes(s, s', index.value, b)))
    case Write(id, offset, bytes) =>
      && s'.refs == s.refs && (!ok ==> s' == s)
      && (ok ==>
            && id in s.refs && s.refs[id].Some? && s.refs[id].value < |s.blocks| && offset + |bytes| <= |s.blocks[s.refs[id].value]|
            && s'.spoiled == s.spoiled - {s.refs[id].value}
            && Changes(s, s', s.refs[id].value, Splice(s.blocks[s.refs[id].value], offset, bytes)))
    case Copy(id) => (ok <==> id in s.refs) && s' == if ok then s.(refs := s.refs[step := s.refs[id]]) else s
    case Assign(id, from) => (ok <==> id in s.refs && from in s.refs) && s' == if ok then s.(refs := s.refs[id := s.refs[from]]) else s
    case Drop(id) => (ok <==> id in s.refs) && s' == s.(refs := s.refs - {id})
    case Evict(i) =>
      && s'.refs == s.refs && (ok <==> Some(i) !in s.refs.Values) && (i !in s.spoiled || !ok ==> s' == s)
      && (i in s.spoiled && ok ==> s'.spoiled == s.spoiled - {i} && exists b :: Changes(s, s', i, b))
    case Grow(n) => ok && s' == s.(blocks := s.blocks + seq(n, _ => Zeros(bs)))
  }

  ghost function RefsOf(handles: map<nat, BlockHandle>, target: Targets): map<nat, Option<nat>> {
    map k | k in handles && handles[k] in target :: target[handles[k]]
  }

  /** The handles of the application are all there are, each with its own number. */
  ghost predicate Known(handles: map<nat, BlockHandle>, target: Targets) {
    && (forall k :: k in handles ==> handles[k] in target)
    && (forall j, k :: j in handles && k in handles && handles[j] == handles[k] ==> j == k)
    && (forall h :: h in target ==> exists k :: k in handles && handles[k] == h)
  }

  /** A new handle gets the number of the step. */
  lemma KnownNew(handles: map<nat, BlockHandle>, target: Targets, step: nat, h: BlockHandle, t: Option<nat>)
    requires Known(handles, target) && h !in target && step !in handles
    ensures Known(handles[step := h], target[h := t])
    ensures RefsOf(handles[step := h], target[h := t]) == RefsOf(handles, target)[step := t]
  {
    var handles', target' := handles[step := h], target[h := t];
    forall g | g in target' ensures exists k :: k in handles' && handles'[k] == g {
      if g == h {
        assert handles'[step] == g;
      } else {
        var k :| k in handles && handles[k] == g;
        assert handles'[k] == g;
      }
    }
  }

  lemma KnownGone(handles: map<nat, BlockHandle>, target: Targets, id: nat)
    requires Known(handles, target) && id in handles
    ensures Known(handles - {id}, target - {handles[id]})
    ensures RefsOf(handles - {id}, target - {handles[id]}) == RefsOf(handles, target) - {id}
  {
    var handles' := handles - {id};
    forall g | g in target - {handles[id]} ensures exists k :: k in handles' && handles'[k] == g {
      var k :| k in handles && handles[k] == g;
      assert handles'[k] == g;
    }
  }

  lemma KnownChanged(handles: map<nat, BlockHandle>, target: Targets, id: nat, t: Option<nat>)
    requires Known(handles, target) && id in handles
    ensures Known(handles, target[handles[id] := t])
    ensures RefsOf(handles, target[handles[id] := t]) == RefsOf(handles, target)[id := t]
  {}

  class Application {
    const manager: Manager
    var handles: map<nat, BlockHandle>

    ghost predicate Valid()
      reads this, manager, manager.handles.Values, manager.freelist, manager.target.Keys
    {
      manager.Valid() && Known(handles, manager.target)
    }

    ghost function Refs(): map<nat, Option<nat>>
      reads this, manager
    {
      RefsOf(handles, manager.target)
    }

    ghost function StateNow(): State
      reads this, manager
    {
      State(manager.Seen(), Refs(), manager.spoiled)
    }

    constructor (manager: Manager)
      requires manager.Valid() && manager.target == map[]
      ensures Valid() && this.manager == manager && handles == map[]
    {
      this.manager, handles := manager, map[];
    }

    lemma NothingYet()
      requires handles == map[]
      ensures StateNow() == State(manager.Seen(), map[], manager.spoiled)
    {}

    /** What a handle gives access to is its block. */
    lemma ShowsItsBlock(id: nat)
      requires Valid() && id in Refs() && Refs()[id].Some?
      ensures Refs()[id].value < |StateNow().blocks| && manager.Data(handles[id]) == StateNow().blocks[Refs()[id].value]
    {
      hide RefCount;
      manager.DataIsSeen(handles[id]);
    }

    lemma UsedIf(i: nat)
      requires Valid()
      ensures i in manager.handles <==> Some(i) in Refs().Values
    {
      hide RefCount, Manager.Valid;
      manager.ManagedIfUsed(i);
      if i in manager.handles {
        var h :| h in manager.target && manager.target[h] == Some(i);
        var k :| k in handles && handles[k] == h;
        assert Refs()[k] == Some(i);
      }
      if Some(i) in Refs().Values {
        var k :| k in Refs() && Refs()[k] == Some(i);
        assert manager.target[handles[k]] == Some(i);
      }
    }

    method ReadBlock(index: Option<nat>, step: nat) returns (ok: bool)
      requires Valid() && step !in handles
      modifies this, manager, manager.handles.Values, manager.freelist
      ensures forall j :: j in manager.handles ==> manager.handles[j] in old(manager.handles).Values || manager.handles[j] in old(manager.freelist) || fresh(manager.handles[j])
      ensures forall x :: x in manager.freelist ==> x in old(manager.freelist) || x in old(manager.handles).Values || fresh(x)
      ensures forall h :: h in manager.target ==> h in old(manager.target) || fresh(h)
      ensures Valid() && handles.Keys == if ok then old(handles).Keys + {step} else old(handles).Keys
      ensures Explains(old(StateNow()), Read(index), step, ok, StateNow(), manager.blockSize)
    {
      hide RefCount, Manager.Valid, SeenBlocks, Known, RefsOf, Changes, Fills;
      if index.Some? {
        UsedIf(index.value);
      }
      ghost var before := manager.target;
      var r := manager.Read(index);
      ok := r.Success?;
      if ok {
        KnownNew(handles, before, step, r.value, index);
        handles := handles[step := r.value];
      }
    }

    method OverwriteBlock(index: Option<nat>, data: seq<byte>, step: nat) returns (ok: bool)
      requires Valid() && step !in handles
      modifies this, manager, manager.handles.Values, manager.freelist
      ensures forall j :: j in manager.handles ==> manager.handles[j] in old(manager.handles).Values || manager.handles[j] in old(manager.freelist) || fresh(manager.handles[j])
      ensures forall x :: x in manager.freelist ==> x in old(manager.freelist) || x in old(manager.handles).Values || fresh(x)
      ensures forall h :: h in manager.target ==> h in old(manager.target) || fresh(h)
      ensures Valid() && handles.Keys == if ok then old(handles).Keys + {step} else old(handles).Keys
      ensures Explains(old(StateNow()), Overwrite(index, data), step, ok, StateNow(), manager.blockSize)
    {
      hide RefCount, Manager.Valid, SeenBlocks, Known, RefsOf;
      ghost var before, s := manager.target, StateNow();
      var r := manager.Overwrite(index, data);
      ok := r.Success?;
      if |data| <= manager.blockSize {
        assert Fills(manager.Padded(data), data, manager.blockSize);
      }
      if ok {
        KnownNew(handles, before, step, r.value, index);
        handles := handles[step := r.value];
        assert Changes(s, StateNow(), index.value, manager.Padded(data));
      } else if manager.Seen() != s.blocks {
        assert Changes(s, StateNow(), index.value, manager.Padded(data));
      }
    }

    method WriteBlock(id: nat, offset: nat, bytes: seq<byte>) returns (ok: bool)
      requires Valid()
      modifies manager`memory, manager`dirty, manager`spoiled
      ensures Valid() && Explains(old(StateNow()), Write(id, offset, bytes), 0, ok, StateNow(), manager.blockSize)
    {
      hide RefCount, Manager.Linked, InUse, SeenBlocks, Known, Fills;
      if id !in handles {
        return false;
      }
      KnownId(id);
      manager.TargetOf(handles[id]);
      if handles[id].impl == null || offset + |bytes| > manager.blockSize {
        return false;
      }
      ShowsItsBlock(id);
      manager.DataSize(handles[id]);
      var r := manager.Write(handles[id], offset, bytes);
      ok := r.Pass?;
    }

    lemma KnownId(id: nat)
      requires Valid() && id in handles
      ensures handles[id] in manager.target && id in Refs() && Refs()[id] == manager.target[handles[id]]
    {
      hide RefCount, Manager.Valid;
    }

    method CopyHandle(id: nat, step: nat) returns (ok: bool)
      requires Valid() && step !in handles
      modifies this, manager`target, manager`held, manager.handles.Values
      ensures forall h :: h in manager.target ==> h in old(manager.target) || fresh(h)
      ensures Valid() && handles.Keys == if ok then old(handles).Keys + {step} else old(handles).Keys
      ensures Explains(old(StateNow()), Copy(id), step, ok, StateNow(), manager.blockSize)
    {
      hide RefCount, Manager.Valid, SeenBlocks, Known, RefsOf, Fills, Changes;
      SameIds();
      ok := id in handles;
      if ok {
        KnownId(id);
        ghost var before := manager.target;
        var h := manager.Copy(handles[id]);
        KnownNew(handles, before, step, h, before[handles[id]]);
        handles := handles[step := h];
      }
    }

    lemma SameIds()
      requires Valid()
      ensures Refs().Keys == handles.Keys
    {
      hide RefCount, Manager.Valid;
    }

    method AssignHandle(id: nat, from: nat) returns (ok: bool)
      requires Valid()
      modifies manager, manager.handles.Values, manager.target.Keys
      ensures forall j :: j in manager.handles ==> manager.handles[j] in old(manager.handles).Values || manager.handles[j] in old(manager.freelist) || fresh(manager.handles[j])
      ensures forall x :: x in manager.freelist ==> x in old(manager.freelist) || x in old(manager.handles).Values || fresh(x)
      ensures forall h :: h in manager.target ==> h in old(manager.target) || fresh(h)
      ensures Valid() && Explains(old(StateNow()), Assign(id, from), 0, ok, StateNow(), manager.blockSize)
    {
      hide RefCount, Manager.Valid, SeenBlocks, Known, RefsOf, Fills, Changes;
      SameIds();
      ok := id in handles && from in handles;
      if ok {
        KnownId(id);
        KnownId(from);
        ghost var before := manager.target;
        manager.Assign(handles[id], handles[from]);
        KnownChanged(handles, before, id, before[handles[from]]);
      }
    }

    method DropHandle(id: nat) returns (ok: bool)
      requires Valid()
      modifies this, manager, manager.handles.Values, manager.target.Keys
      ensures forall j :: j in manager.handles ==> manager.handles[j] in old(manager.handles).Values || manager.handles[j] in old(manager.freelist) || fresh(manager.handles[j])
      ensures forall x :: x in manager.freelist ==> x in old(manager.freelist) || x in old(manager.handles).Values || fresh(x)
      ensures forall h :: h in manager.target ==> h in old(manager.target) || fresh(h)
      ensures Valid() && handles == old(handles) - {id}
      ensures Explains(old(StateNow()), Drop(id), 0, ok, StateNow(), manager.blockSize)
    {
      hide RefCount, Manager.Valid, SeenBlocks, Known, RefsOf, Fills, Changes;
      SameIds();
      ok := id in handles;
      if ok {
        KnownId(id);
        ghost var before := manager.target;
        manager.Drop(handles[id]);
        KnownGone(handles, before, id);
        handles := handles - {id};
      } else {
        assert Refs() - {id} == Refs();
      }
    }

    method EvictBlock(i: nat) returns (ok: bool)
      requires Valid()
      modifies manager`memory, manager`dirty, manager`stored, manager`spoiled
      ensures Valid() && Explains(old(StateNow()), Evict(i), 0, ok, StateNow(), manager.blockSize)
    {
      hide RefCount, Manager.Linked, InUse, SeenBlocks, Known, Fills;
      UsedIf(i);
      ok := i !in manager.handles;
      if ok {
        ghost var s, b := StateNow(), if i < |manager.stored| then manager.stored[i] else [];
        manager.SpoiledInFile(i);
        manager.Evict(i);
        assert i in s.spoiled ==> Changes(s, StateNow(), i, b);
      }
    }

    method Perform(op: Operation, step: nat) returns (ok: bool)
      requires Valid() && forall k :: k in handles ==> k < step
      modifies this, manager, manager.handles.Values, manager.freelist, manager.target.Keys
      ensures forall j :: j in manager.handles ==> manager.handles[j] in old(manager.handles).Values || manager.handles[j] in old(manager.freelist) || fresh(manager.handles[j])
      ensures forall x :: x in manager.freelist ==> x in old(manager.freelist) || x in old(manager.handles).Values || fresh(x)
      ensures forall h :: h in manager.target ==> h in old(manager.target) || fresh(h)
      ensures Valid() && (forall k :: k in handles ==> k < step + 1)
      ensures Explains(old(StateNow()), op, step, ok, StateNow(), manager.blockSize)
    {
      hide Application.Valid, Application.StateNow;
      match op
      case Read(index) => ok := ReadBlock(index, step);
      case Overwrite(index, data) => ok := OverwriteBlock(index, data, step);
      case Write(id, offset, bytes) => ok := WriteBlock(id, offset, bytes);
      case Copy(id) => ok := CopyHandle(id, step);
      case Assign(id, from) => ok := AssignHandle(id, from);
      case Drop(id) => ok := DropHandle(id);
      case Evict(i) => ok := EvictBlock(i);
      case Grow(n) => ok := GrowFile(n);
    }

    method GrowFile(n: nat) returns (ok: bool)
      requires Valid()
      modifies manager`stored
      ensures Valid() && Explains(old(StateNow()), Grow(n), 0, ok, StateNow(), manager.blockSize)
    {
      hide RefCount, Manager.Linked, InUse, SeenBlocks, Known, Fills;
      manager.Grow(n);
      ok := true;
    }
  }

  /** Any sequence of operations: the blocks change by what is written to them and by nothing else. */
  method Execute(bs: nat, stored: seq<Block>, ops: seq<Operation>) returns (a: Application, answers: seq<bool>, ghost trace: seq<State>)
    requires forall i :: 0 <= i < |stored| ==> |stored[i]| == bs
    ensures a.Valid() && a.manager.blockSize == bs && |answers| == |ops| && |trace| == |ops| + 1
    ensures trace[0] == State(stored, map[], {}) && trace[|ops|] == a.StateNow()
    ensures forall i :: 0 <= i < |ops| ==> Explains(trace[i], ops[i], i, answers[i], trace[i + 1], bs)
  {
    hide Application.Valid, Application.StateNow, Explains, Manager.Valid, Manager.Seen;
    var manager := new Manager(bs, stored);
    a := new Application(manager);
    answers, trace := [], [a.StateNow()];
    a.NothingYet();
    for n := 0 to |ops|
      invariant a.Valid() && a.manager.blockSize == bs && forall k :: k in a.handles ==> k < n
      invariant fresh(a) && a.manager == manager && fresh(manager)
      invariant (forall x :: x in manager.handles.Values || x in manager.freelist ==> fresh(x)) && (forall k :: 0 <= k < |manager.freelist| ==> fresh(manager.freelist[k]))
      invariant forall h :: h in manager.target ==> fresh(h)
      invariant |answers| == n && |trace| == n + 1 && trace[0] == State(stored, map[], {}) && trace[n] == a.StateNow()
      invariant forall i :: 0 <= i < n ==> Explains(trace[i], ops[i], i, answers[i], trace[i + 1], bs)
    {
      var ok := a.Perform(ops[n], n);
      answers, trace := answers + [ok], trace + [a.StateNow()];
      assert forall k :: 0 <= k < |manager.freelist| ==> manager.freelist[k] in manager.freelist;
    }
  }
}
