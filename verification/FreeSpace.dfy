/**
Free extents as the maximal runs of the set of free blocks, and the merging of neighbours.
*/
module FreeSpace {
  import opened Runs
  import opened Wrappers

  /** `size` consecutive blocks starting at `block`. */
  datatype Extent = Extent(block: nat, size: nat) {
    function End(): nat {
      block + size
    }

    ghost function Blocks(): set<nat> {
      Range(block, End())
    }
  }

  predicate Overlap(a: Extent, b: Extent) {
    a.block < b.End() && b.block < a.End()
  }

  predicate Touch(left: Extent, right: Extent) {
    left.End() == right.block
  }

  /** The extents are exactly the maximal runs of `free`. */
  ghost predicate Canonical(extents: set<Extent>, free: set<nat>) {
    && (forall e :: e in extents ==> IsRun(free, e.block, e.End()))
    && (forall x :: x in free ==> exists e :: e in extents && e.block <= x < e.End())
  }

  /** The extents next to a position in the index ordered by block: last before, first at or after. */
  ghost predicate Around(extents: set<Extent>, block: nat, left: Option<Extent>, right: Option<Extent>) {
    && (left.Some? ==> left.value in extents && left.value.block < block)
    && (forall e :: e in extents && e.block < block ==> left.Some? && e.block <= left.value.block)
    && (right.Some? ==> right.value in extents && right.value.block >= block)
    && (forall e :: e in extents && e.block >= block ==> right.Some? && right.value.block <= e.block)
  }

  /** The index is determined by the set of free blocks. */
  lemma CanonicalIsUnique(extents: set<Extent>, extents': set<Extent>, free: set<nat>)
    requires Canonical(extents, free) && Canonical(extents', free)
    ensures extents == extents'
  {
    SubsetOf(extents, extents', free);
    SubsetOf(extents', extents, free);
  }

  lemma SubsetOf(extents: set<Extent>, extents': set<Extent>, free: set<nat>)
    requires Canonical(extents, free) && Canonical(extents', free)
    ensures extents <= extents'
  {
    forall e | e in extents ensures e in extents' {
      assert e.block in free;
      var e' :| e' in extents' && e'.block <= e.block < e'.End();
      RunsApart(free, e.block, e.End(), e'.block, e'.End());
    }
  }

  /** The extents are the maximal runs of free blocks. */
  lemma ExtentIff(extents: set<Extent>, free: set<nat>, e: Extent)
    requires Canonical(extents, free)
    ensures e in extents <==> IsRun(free, e.block, e.End())
  {
    if IsRun(free, e.block, e.End()) {
      assert e.block in free;
      var f :| f in extents && f.block <= e.block < f.End();
      RunsApart(free, e.block, e.End(), f.block, f.End());
    }
  }

  lemma ExtentIsNonempty(extents: set<Extent>, free: set<nat>, e: Extent)
    requires Canonical(extents, free) && e in extents
    ensures e.size > 0
  {}

  lemma OthersStayRuns(extents: set<Extent>, free: set<nat>, e: Extent, e': Extent)
    requires IsRun(free, e.block, e.End()) && IsRun(free, e'.block, e'.End()) && e' != e
    ensures IsRun(free - e.Blocks(), e'.block, e'.End())
  {}

  lemma EraseKeepsCanonical(extents: set<Extent>, free: set<nat>, e: Extent)
    requires Canonical(extents, free) && e in extents
    ensures Canonical(extents - {e}, free - e.Blocks())
    ensures e.Blocks() <= free && Count(free - e.Blocks()) == Count(free) - e.size
  {
    hide IsRun, Range, Count;
    var free' := free - e.Blocks();
    RunInside(free, e.block, e.End());
    RangeSize(e.block, e.End());
    CountMinus(free, e.Blocks());
    forall e' | e' in extents - {e} ensures IsRun(free', e'.block, e'.End()) {
      OthersStayRuns(extents, free, e, e');
    }
    OthersCover(extents, free, e);
  }

  lemma OthersCover(extents: set<Extent>, free: set<nat>, e: Extent)
    requires forall x :: x in free ==> exists e' :: e' in extents && e'.block <= x < e'.End()
    ensures forall x :: x in free - e.Blocks() ==> exists e' :: e' in extents - {e} && e'.block <= x < e'.End()
  {}

  /** Where an extent lies relative to the two around `block`. */
  lemma Elsewhere(extents: set<Extent>, free: set<nat>, block: nat, left: Option<Extent>, right: Option<Extent>, e: Extent)
    requires Canonical(extents, free) && Around(extents, block, left, right) && e in extents
    ensures left == Some(e) || right == Some(e) ||
            (left.Some? && e.End() < left.value.block) || (right.Some? && right.value.End() < e.block)
  {}

  /** Comparing with the two neighbours is enough to find any overlap with the free blocks. */
  lemma OverlapIsFound(extents: set<Extent>, free: set<nat>, x: Extent, left: Option<Extent>, right: Option<Extent>)
    requires Canonical(extents, free) && Around(extents, x.block, left, right) && x.size > 0
    ensures x.Blocks() !! free <==>
            !(left.Some? && Overlap(x, left.value)) && !(right.Some? && Overlap(x, right.value))
  {
    if left.Some? && Overlap(x, left.value) {
      assert x.block in free && x.block in x.Blocks();
    }
    if right.Some? && Overlap(x, right.value) {
      assert right.value.block in free && right.value.block in x.Blocks();
    }
    if !(x.Blocks() !! free) {
      var b :| b in x.Blocks() && b in free;
      var e :| e in extents && e.block <= b < e.End();
      Elsewhere(extents, free, x.block, left, right, e);
    }
  }

  /** `x` merged with the neighbours it touches. */
  function Joined(x: Extent, left: Option<Extent>, right: Option<Extent>): Extent {
    var r := if right.Some? && Touch(x, right.value) then Extent(x.block, x.size + right.value.size) else x;
    if left.Some? && Touch(left.value, x) then Extent(left.value.block, r.size + left.value.size) else r
  }

  function NotJoined(extents: set<Extent>, x: Extent, left: Option<Extent>, right: Option<Extent>): set<Extent> {
    extents - (if right.Some? && Touch(x, right.value) then {right.value} else {})
            - (if left.Some? && Touch(left.value, x) then {left.value} else {})
  }

  lemma OutsideFree(free: set<nat>, x: Extent, e: Extent)
    requires x.size > 0 && x.Blocks() !! free && IsRun(free, e.block, e.End())
    ensures e.End() <= x.block || x.End() <= e.block
  {
    var b := if e.block < x.block then x.block else e.block;
    assert Overlap(e, x) ==> b in free && b in x.Blocks();
  }

  /** Only the two neighbours can touch `x`. */
  lemma Apart(extents: set<Extent>, free: set<nat>, x: Extent, left: Option<Extent>, right: Option<Extent>, e: Extent)
    requires Canonical(extents, free) && Around(extents, x.block, left, right) && x.size > 0 && x.Blocks() !! free
    requires e in extents
    ensures e.End() <= x.block || x.End() <= e.block
    ensures e.End() == x.block ==> left == Some(e)
    ensures e.block == x.End() ==> right == Some(e)
  {
    OutsideFree(free, x, e);
    if e.End() == x.block {
      RunsApart(free, e.block, e.End(), left.value.block, left.value.End());
      OutsideFree(free, x, left.value);
    }
    if e.block == x.End() {
      RunsApart(free, e.block, e.End(), right.value.block, right.value.End());
      OutsideFree(free, x, right.value);
    }
  }

  lemma JoinsLeft(extents: set<Extent>, free: set<nat>, x: Extent, left: Option<Extent>, right: Option<Extent>)
    requires Canonical(extents, free) && Around(extents, x.block, left, right) && x.size > 0 && x.Blocks() !! free
    ensures var lo := Joined(x, left, right).block;
            if lo < x.block then IsRun(free, lo, x.block) else lo == x.block && (x.block == 0 || x.block - 1 !in free)
  {
    if x.block > 0 && x.block - 1 in free {
      var e :| e in extents && e.block <= x.block - 1 < e.End();
      Apart(extents, free, x, left, right, e);
    }
  }

  lemma JoinsRight(extents: set<Extent>, free: set<nat>, x: Extent, left: Option<Extent>, right: Option<Extent>)
    requires Canonical(extents, free) && Around(extents, x.block, left, right) && x.size > 0 && x.Blocks() !! free
    ensures var hi := Joined(x, left, right).End();
            if x.End() < hi then IsRun(free, x.End(), hi) else hi == x.End() && x.End() !in free
  {
    if x.End() in free {
      var e :| e in extents && e.block <= x.End() < e.End();
      Apart(extents, free, x, left, right, e);
    }
  }

  lemma JoinedIsRun(extents: set<Extent>, free: set<nat>, x: Extent, left: Option<Extent>, right: Option<Extent>)
    requires Canonical(extents, free) && Around(extents, x.block, left, right) && x.size > 0 && x.Blocks() !! free
    ensures var j := Joined(x, left, right); IsRun(free + x.Blocks(), j.block, j.End()) && j.block <= x.block < x.End() <= j.End()
  {
    var j := Joined(x, left, right);
    JoinsLeft(extents, free, x, left, right);
    JoinsRight(extents, free, x, left, right);
    RunMerges(free, x.block, x.End(), j.block, j.End());
  }

  lemma NotJoinedStayRuns(extents: set<Extent>, free: set<nat>, x: Extent, left: Option<Extent>, right: Option<Extent>)
    requires Canonical(extents, free) && Around(extents, x.block, left, right) && x.size > 0 && x.Blocks() !! free
    ensures forall e :: e in NotJoined(extents, x, left, right) ==> IsRun(free + x.Blocks(), e.block, e.End())
  {
    forall e | e in NotJoined(extents, x, left, right) ensures IsRun(free + x.Blocks(), e.block, e.End()) {
      Apart(extents, free, x, left, right, e);
      RunSurvives(free, x.block, x.End(), e.block, e.End());
    }
  }

  lemma JoinCovers(extents: set<Extent>, x: Extent, left: Option<Extent>, right: Option<Extent>, b: nat)
    requires b in x.Blocks() || exists e :: e in extents && e.block <= b < e.End()
    ensures exists e :: e in NotJoined(extents, x, left, right) + {Joined(x, left, right)} && e.block <= b < e.End()
  {}

  /** Merging with the touching neighbours keeps the index canonical. */
  lemma JoinKeepsCanonical(extents: set<Extent>, free: set<nat>, x: Extent, left: Option<Extent>, right: Option<Extent>)
    requires Canonical(extents, free) && Around(extents, x.block, left, right) && x.size > 0 && x.Blocks() !! free
    ensures Canonical(NotJoined(extents, x, left, right) + {Joined(x, left, right)}, free + x.Blocks())
    ensures Count(free + x.Blocks()) == Count(free) + x.size
  {
    hide IsRun, Joined, NotJoined, Count;
    RangeSize(x.block, x.End());
    CountUnion(free, x.Blocks());
    JoinedIsRun(extents, free, x, left, right);
    NotJoinedStayRuns(extents, free, x, left, right);
    forall b | b in free + x.Blocks()
      ensures exists e :: e in NotJoined(extents, x, left, right) + {Joined(x, left, right)} && e.block <= b < e.End()
    {
      JoinCovers(extents, x, left, right, b);
    }
  }

  // ---- Positions in the two indexes.

  /** The extent with the lowest block. */
  method First(extents: set<Extent>) returns (r: Extent)
    requires extents != {}
    ensures r in extents && forall e :: e in extents ==> r.block <= e.block
  {
    r :| r in extents;
    var rest := extents - {r};
    while rest != {}
      invariant r in extents && rest <= extents
      invariant forall e :: e in extents - rest ==> r.block <= e.block
      decreases rest
    {
      var e :| e in rest;
      rest := rest - {e};
      r := if e.block < r.block then e else r;
    }
  }

  /** The extent with the highest block. */
  method Last(extents: set<Extent>) returns (r: Extent)
    requires extents != {}
    ensures r in extents && forall e :: e in extents ==> e.block <= r.block
  {
    r :| r in extents;
    var rest := extents - {r};
    while rest != {}
      invariant r in extents && rest <= extents
      invariant forall e :: e in extents - rest ==> e.block <= r.block
      decreases rest
    {
      var e :| e in rest;
      rest := rest - {e};
      r := if r.block < e.block then e else r;
    }
  }

  /** The first extent at or after `block`, and the last one before it. */
  method Neighbours(extents: set<Extent>, block: nat) returns (left: Option<Extent>, right: Option<Extent>)
    ensures Around(extents, block, left, right)
  {
    left, right := None, None;
    var rest := extents;
    while rest != {}
      invariant rest <= extents
      invariant Around(extents - rest, block, left, right)
      decreases rest
    {
      var e :| e in rest;
      rest := rest - {e};
      if e.block < block {
        left := if left.None? || left.value.block < e.block then Some(e) else left;
      } else {
        right := if right.None? || e.block < right.value.block then Some(e) else right;
      }
    }
    assert extents - {} == extents;
  }

  /** The order of the index by size: smaller first, ties by position. */
  ghost predicate BySize(a: Extent, b: Extent) {
    a.size < b.size || (a.size == b.size && a.block <= b.block)
  }

  /** The smallest extent with at least `request` blocks. */
  ghost predicate IsBestFit(extents: set<Extent>, request: nat, r: Option<Extent>) {
    && (r.None? ==> forall e :: e in extents ==> e.size < request)
    && (r.Some? ==> r.value in extents && r.value.size >= request &&
                    forall e :: e in extents && e.size >= request ==> BySize(r.value, e))
  }

  method BestFit(extents: set<Extent>, request: nat) returns (r: Option<Extent>)
    ensures IsBestFit(extents, request, r)
  {
    r := None;
    var rest := extents;
    while rest != {}
      invariant rest <= extents
      invariant IsBestFit(extents - rest, request, r)
      decreases rest
    {
      var e :| e in rest;
      rest := rest - {e};
      if e.size >= request && (r.None? || e.size < r.value.size || (e.size == r.value.size && e.block < r.value.block)) {
        r := Some(e);
      }
    }
    assert extents - {} == extents;
  }

  /** The blocks of all extents, as the consistency check adds them up. */
  ghost function TotalBlocks(extents: set<Extent>): nat {
    if extents == {} then 0
    else
      var e :| e in extents;
      e.size + TotalBlocks(extents - {e})
  }

  lemma {:induction false} TotalWithout(extents: set<Extent>, e: Extent)
    requires e in extents
    ensures TotalBlocks(extents) == e.size + TotalBlocks(extents - {e})
    decreases |extents|
  {
    var x :| x in extents && TotalBlocks(extents) == x.size + TotalBlocks(extents - {x});
    if x != e {
      TotalWithout(extents - {x}, e);
      TotalWithout(extents - {e}, x);
      assert extents - {x} - {e} == extents - {e} - {x};
    }
  }

  /** The maximal runs add up to the free blocks. */
  lemma {:induction false} TotalOfCanonical(extents: set<Extent>, free: set<nat>)
    requires Canonical(extents, free)
    ensures TotalBlocks(extents) == |free|
    decreases |extents|
  {
    hide Canonical;
    if extents == {} {
      NoExtents(free);
    } else {
      var e :| e in extents && TotalBlocks(extents) == e.size + TotalBlocks(extents - {e});
      EraseKeepsCanonical(extents, free, e);
      TotalOfCanonical(extents - {e}, free - e.Blocks());
    }
  }

  lemma NoExtents(free: set<nat>)
    requires Canonical({}, free)
    ensures free == {}
  {}
}
