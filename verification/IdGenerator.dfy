/**
The generator of reusable ids: a counter `max` and an index of the free intervals below it.
*/
module IdGenerator {
  import opened Runs
  import opened Wrappers

  const MAX_VALUE: nat := 0xFFFF_FFFF_FFFF_FFFF

  /** A range of free ids, both ends inclusive. The index orders intervals by their end. */
  datatype Interval = Interval(begin: nat, end: nat) {
    ghost function Ids(): set<nat> {
      Range(begin, end + 1)
    }
  }

  datatype Error = Exhausted | InvalidId | AlreadyFreed | BadAlloc

  /** The ids below `max` that are not in use. */
  ghost function Gaps(live: set<nat>, max: nat): (g: set<nat>) {
    Range(1, max + 1) - live
  }

  /** The intervals are exactly the maximal runs of `gaps`. */
  ghost predicate Canonical(tree: set<Interval>, gaps: set<nat>) {
    && (forall i :: i in tree ==> IsRun(gaps, i.begin, i.end + 1))
    && (forall x :: x in gaps ==> exists i :: i in tree && i.begin <= x <= i.end)
  }

  /** `max` is the largest live id, or 0 when there is none. */
  ghost predicate IsMax(live: set<nat>, max: nat) {
    && (forall x :: x in live ==> 1 <= x <= max)
    && (max > 0 ==> max in live)
  }

  ghost predicate Represents(max: nat, tree: set<Interval>, live: set<nat>) {
    IsMax(live, max) && Canonical(tree, Gaps(live, max))
  }

  /** `id` is the least positive id that is not in use. */
  ghost predicate IsLeastFree(live: set<nat>, id: nat) {
    id > 0 && id !in live && forall x :: 0 < x < id ==> x in live
  }

  /** The stored state is determined by the set of live ids alone. */
  lemma StateIsFunctionOfLiveIds(max: nat, tree: set<Interval>, max': nat, tree': set<Interval>, live: set<nat>)
    requires Represents(max, tree, live) && Represents(max', tree', live)
    ensures max == max' && tree == tree'
  {
    SameIntervals(tree, tree', Gaps(live, max));
    SameIntervals(tree', tree, Gaps(live, max));
  }

  lemma SameIntervals(tree: set<Interval>, tree': set<Interval>, gaps: set<nat>)
    requires Canonical(tree, gaps) && Canonical(tree', gaps)
    ensures tree <= tree'
  {
    forall i | i in tree ensures i in tree' {
      assert i.begin in gaps;
      var j :| j in tree' && j.begin <= i.begin <= j.end;
      RunsApart(gaps, i.begin, i.end + 1, j.begin, j.end + 1);
    }
  }

  // ---- Positions in the interval index, which is ordered by `end`.

  method First(tree: set<Interval>) returns (r: Interval)
    requires tree != {}
    ensures r in tree && forall i :: i in tree ==> r.end <= i.end
  {
    r :| r in tree;
    var rest := tree - {r};
    while rest != {}
      invariant r in tree && rest <= tree
      invariant forall i :: i in tree - rest ==> r.end <= i.end
      decreases rest
    {
      var i :| i in rest;
      rest := rest - {i};
      r := if i.end < r.end then i else r;
    }
  }

  /** The first interval with `end >= key`. */
  method LowerBound(tree: set<Interval>, key: nat) returns (r: Option<Interval>)
    ensures r.None? ==> forall i :: i in tree ==> i.end < key
    ensures r.Some? ==> r.value in tree && r.value.end >= key
    ensures r.Some? ==> forall i :: i in tree && i.end >= key ==> r.value.end <= i.end
  {
    var above := set i | i in tree && i.end >= key;
    if i :| i in above {
      var first := First(above);
      return Some(first);
    }
    assert forall i :: i in tree && i.end >= key ==> i in above;
    return None;
  }

  /** The last interval with `end < key`. */
  method Before(tree: set<Interval>, key: nat) returns (r: Option<Interval>)
    ensures r.None? ==> forall i :: i in tree ==> i.end >= key
    ensures r.Some? ==> r.value in tree && r.value.end < key
    ensures r.Some? ==> forall i :: i in tree && i.end < key ==> i.end <= r.value.end
  {
    r := None;
    var rest := tree;
    while rest != {}
      invariant rest <= tree
      invariant r.Some? ==> r.value in tree && r.value.end < key
      invariant forall i :: i in tree - rest && i.end < key ==> r.Some? && i.end <= r.value.end
      decreases rest
    {
      var i :| i in rest;
      rest := rest - {i};
      if i.end < key && (r.None? || r.value.end < i.end) {
        r := Some(i);
      }
    }
  }

  // ---- What the operations do to the gaps.

  lemma FirstBeginsAtLeastGap(tree: set<Interval>, gaps: set<nat>, first: Interval)
    requires Canonical(tree, gaps)
    requires first in tree && forall i :: i in tree ==> first.end <= i.end
    ensures first.begin in gaps && forall x :: x in gaps ==> first.begin <= x
  {}

  function Popped(tree: set<Interval>, first: Interval): set<Interval> {
    tree - {first} + if first.begin < first.end then {Interval(first.begin + 1, first.end)} else {}
  }

  lemma PoppedAreRuns(tree: set<Interval>, gaps: set<nat>, first: Interval, i: Interval)
    requires IsRun(gaps, first.begin, first.end + 1) && IsRun(gaps, i.begin, i.end + 1)
    ensures i != first ==> IsRun(gaps - {first.begin}, i.begin, i.end + 1)
    ensures first.begin < first.end ==> IsRun(gaps - {first.begin}, first.begin + 1, first.end + 1)
  {}

  lemma PoppedCover(tree: set<Interval>, gaps: set<nat>, first: Interval)
    requires forall x :: x in gaps ==> exists i :: i in tree && i.begin <= x <= i.end
    ensures forall x :: x in gaps - {first.begin} ==> exists i :: i in Popped(tree, first) && i.begin <= x <= i.end
  {}

  lemma PopKeepsCanonical(tree: set<Interval>, gaps: set<nat>, first: Interval)
    requires Canonical(tree, gaps) && first in tree
    ensures Canonical(Popped(tree, first), gaps - {first.begin})
  {
    hide IsRun;
    forall i | i in Popped(tree, first) ensures IsRun(gaps - {first.begin}, i.begin, i.end + 1) {
      PoppedAreRuns(tree, gaps, first, if i in tree then i else first);
    }
    PoppedCover(tree, gaps, first);
  }

  /** The intervals on either side of `id` in the index. */
  ghost predicate Around(tree: set<Interval>, id: nat, left: Option<Interval>, right: Option<Interval>) {
    && (left.Some? ==> left.value in tree && left.value.end < id)
    && (forall i :: i in tree && i.end < id ==> left.Some? && i.end <= left.value.end)
    && (right.Some? ==> right.value in tree && right.value.end >= id)
    && (forall i :: i in tree && i.end >= id ==> right.Some? && right.value.end <= i.end)
  }

  function Joined(id: nat, left: Option<Interval>, right: Option<Interval>): Interval {
    Interval(if left.Some? && left.value.end + 1 == id then left.value.begin else id,
             if right.Some? && right.value.begin == id + 1 then right.value.end else id)
  }

  function NotJoined(tree: set<Interval>, id: nat, left: Option<Interval>, right: Option<Interval>): set<Interval> {
    tree - (if left.Some? && left.value.end + 1 == id then {left.value} else {})
         - (if right.Some? && right.value.begin == id + 1 then {right.value} else {})
  }

  /** The id is a gap already exactly when the interval to its right reaches down to it. */
  lemma RejectsExactlyGaps(tree: set<Interval>, gaps: set<nat>, id: nat, left: Option<Interval>, right: Option<Interval>)
    requires Canonical(tree, gaps) && Around(tree, id, left, right)
    ensures id in gaps <==> right.Some? && right.value.begin <= id
  {}

  /** Where an interval lies relative to the two around `id`. */
  lemma Elsewhere(tree: set<Interval>, gaps: set<nat>, id: nat, left: Option<Interval>, right: Option<Interval>, i: Interval)
    requires Canonical(tree, gaps) && Around(tree, id, left, right) && id > 0 && id !in gaps && i in tree
    ensures left == Some(i) || right == Some(i) ||
            (i.end < id && i.end + 1 < left.value.begin) || (id < i.begin && right.value.end + 1 < i.begin)
    ensures i.end < id || id < i.begin
  {}

  lemma JoinedIsRun(tree: set<Interval>, gaps: set<nat>, id: nat, left: Option<Interval>, right: Option<Interval>)
    requires Canonical(tree, gaps) && Around(tree, id, left, right) && id > 0 && id !in gaps
    ensures IsRun(gaps + {id}, Joined(id, left, right).begin, Joined(id, left, right).end + 1)
  {}

  lemma NotJoinedStayRuns(tree: set<Interval>, gaps: set<nat>, id: nat, left: Option<Interval>, right: Option<Interval>)
    requires Canonical(tree, gaps) && Around(tree, id, left, right) && id > 0 && id !in gaps
    ensures forall i :: i in NotJoined(tree, id, left, right) ==>
                          && IsRun(gaps + {id}, i.begin, i.end + 1)
                          && (i.end < Joined(id, left, right).begin || Joined(id, left, right).end < i.begin)
  {
    forall i | i in NotJoined(tree, id, left, right)
      ensures IsRun(gaps + {id}, i.begin, i.end + 1)
      ensures i.end < Joined(id, left, right).begin || Joined(id, left, right).end < i.begin
    {
      Elsewhere(tree, gaps, id, left, right, i);
      assert Range(id, id + 1) == {id};
      RunSurvives(gaps, id, id + 1, i.begin, i.end + 1);
    }
  }

  lemma JoinCovers(tree: set<Interval>, id: nat, left: Option<Interval>, right: Option<Interval>, x: nat)
    requires (left.Some? ==> left.value.begin <= left.value.end) && (right.Some? ==> right.value.begin <= right.value.end)
    requires x == id || exists i :: i in tree && i.begin <= x <= i.end
    ensures exists i :: i in NotJoined(tree, id, left, right) + {Joined(id, left, right)} && i.begin <= x <= i.end
  {
    var j, rest := Joined(id, left, right), NotJoined(tree, id, left, right);
    if x == id {
      assert j in rest + {j};
    } else {
      var i :| i in tree && i.begin <= x <= i.end;
      assert (if i in rest then i else j) in rest + {j};
    }
  }

  /** Freeing `id` joins it with the intervals it touches. */
  lemma JoinKeepsCanonical(tree: set<Interval>, gaps: set<nat>, id: nat, left: Option<Interval>, right: Option<Interval>)
    requires Canonical(tree, gaps) && Around(tree, id, left, right) && id > 0 && id !in gaps
    ensures Canonical(NotJoined(tree, id, left, right) + {Joined(id, left, right)}, gaps + {id})
    ensures forall i :: i in NotJoined(tree, id, left, right) ==>
                          i.end < Joined(id, left, right).begin || Joined(id, left, right).end < i.begin
  {
    hide Joined, NotJoined;
    JoinedIsRun(tree, gaps, id, left, right);
    NotJoinedStayRuns(tree, gaps, id, left, right);
    forall x | x in gaps + {id}
      ensures exists i :: i in NotJoined(tree, id, left, right) + {Joined(id, left, right)} && i.begin <= x <= i.end
    {
      JoinCovers(tree, id, left, right, x);
    }
  }

  /** A gap that reaches up to `max` is forgotten by lowering `max` below it. */
  lemma DropTop(max: nat, tree: set<Interval>, live: set<nat>, top: Interval)
    requires forall x :: x in live ==> 1 <= x <= max
    requires Canonical(tree + {top}, Gaps(live, max)) && top.end == max
    requires forall i :: i in tree ==> i.end < top.begin || top.end < i.begin
    ensures 1 <= top.begin && Represents(top.begin - 1, tree, live)
  {
    var gaps, gaps' := Gaps(live, max), Gaps(live, top.begin - 1);
    assert top in tree + {top};
    assert top.begin in gaps;
    assert forall x :: top.begin <= x <= max ==> x in gaps;
    assert gaps' == gaps - Range(top.begin, max + 1);
    forall i | i in tree ensures IsRun(gaps', i.begin, i.end + 1) {
      assert i in tree + {top};
      assert i.begin in gaps;
    }
    forall x | x in gaps' ensures exists i :: i in tree && i.begin <= x <= i.end {
      var i :| i in tree + {top} && i.begin <= x <= i.end;
      assert i in tree;
    }
  }

  /** What `Free` does to the state: join, and lower `max` when the joined gap reaches it. */
  lemma FreeKeepsState(max: nat, tree: set<Interval>, live: set<nat>, id: nat, left: Option<Interval>, right: Option<Interval>)
    requires Represents(max, tree, live) && Around(tree, id, left, right) && id in live
    ensures var range, rest := Joined(id, left, right), NotJoined(tree, id, left, right);
            if range.end == max
            then 1 <= range.begin <= max && Represents(range.begin - 1, rest, live - {id})
            else Represents(max, rest + {range}, live - {id})
  {
    var gaps, range, rest := Gaps(live, max), Joined(id, left, right), NotJoined(tree, id, left, right);
    JoinKeepsCanonical(tree, gaps, id, left, right);
    assert Gaps(live - {id}, max) == gaps + {id};
    assert IsRun(gaps + {id}, range.begin, range.end + 1) by { assert range in rest + {range}; }
    assert range.end in gaps + {id};
    if range.end == max {
      DropTop(max, rest, live - {id}, range);
    }
  }

  /** The ids of some intervals. */
  ghost function Ids(tree: set<Interval>): set<nat> {
    set i, x | i in tree && x in i.Ids() :: x
  }

  /** Intervals that are lost make their ids live: nobody has them, but they are not handed out again. */
  lemma LostIntervals(max: nat, tree: set<Interval>, kept: set<Interval>, live: set<nat>)
    requires Represents(max, tree, live) && kept <= tree
    ensures var live' := Range(1, max + 1) - Ids(kept); Represents(max, kept, live') && live <= live'
  {
    hide Range;
    var gaps, live' := Gaps(live, max), Range(1, max + 1) - Ids(kept);
    forall x ensures x in Ids(kept) <==> exists i :: i in kept && i.begin <= x <= i.end {
      if i :| i in kept && i.begin <= x <= i.end {
        assert x in i.Ids();
      }
    }
    assert Ids(kept) <= gaps;
    assert Gaps(live', max) == Ids(kept);
    forall i | i in kept ensures IsRun(Ids(kept), i.begin, i.end + 1) {
      assert IsRun(gaps, i.begin, i.end + 1);
    }
  }

  class Generator {
    /** The highest allocated id. */
    var max: nat
    var tree: set<Interval>
    ghost var live: set<nat>

    ghost predicate Valid()
      reads this
    {
      max <= MAX_VALUE && Represents(max, tree, live)
    }

    constructor ()
      ensures Valid() && live == {}
    {
      max, tree, live := 0, {}, {};
    }

    /** Hands out the least free id; fails, changing nothing, only when every id is live. */
    method Allocate() returns (r: Result<nat, Error>)
      requires Valid()
      modifies this
      ensures Valid()
      ensures r.Success? ==> IsLeastFree(old(live), r.value) && r.value <= MAX_VALUE && live == old(live) + {r.value}
      ensures r.Failure? <==> old(live) == Range(1, MAX_VALUE + 1)
      ensures r.Failure? ==> r.error == Exhausted && live == old(live) && max == old(max) && tree == old(tree)
    {
      if tree == {} {
        assert Gaps(live, max) == {};
        assert forall x :: 1 <= x <= max && x !in live ==> x in Gaps(live, max);
        assert live == Range(1, max + 1);
        if max == MAX_VALUE {
          return Failure(Exhausted);
        }
        max := max + 1;
        live := live + {max};
        assert Gaps(live, max) == {};
        assert max in live && max !in old(live);
        return Success(max);
      }
      var id := PopOne();
      assert id in Range(1, MAX_VALUE + 1);
      return Success(id);
    }

    /** Takes the lowest id of the first interval. */
    method PopOne() returns (id: nat)
      requires Valid() && tree != {}
      modifies this
      ensures Valid() && max == old(max)
      ensures IsLeastFree(old(live), id) && id < max && live == old(live) + {id}
    {
      var first := First(tree);
      id := first.begin;
      FirstBeginsAtLeastGap(tree, Gaps(live, max), first);
      PopKeepsCanonical(tree, Gaps(live, max), first);
      assert Gaps(live + {id}, max) == Gaps(live, max) - {id};
      assert forall x :: 0 < x < id && x !in live ==> x in Gaps(live, max);
      live := live + {id};
      if first.begin != first.end {
        tree := tree - {first} + {Interval(first.begin + 1, first.end)};
      } else {
        tree := tree - {first};
      }
      assert tree == Popped(old(tree), first);
    }

    /** Enters an interval. The tree may find too few blocks for its nodes; when its root is torn, it loses intervals. */
    method Insert(range: Interval) returns (ok: bool)
      modifies `tree
      ensures if ok then tree == old(tree) + {range} else tree <= old(tree) + {range}
    {
      ok := *;
      var kept: set<Interval> := *;
      tree := if ok then tree + {range} else if kept <= tree + {range} then kept else tree;
    }

    /**
    Returns a live id to the pool. Every id that is not live is rejected without effect. If the tree finds no
    blocks, ids get lost: the neighbours of the id are erased before the insertion fails. Live ids stay live.
    */
    method Free(id: nat) returns (r: Outcome<Error>)
      requires Valid()
      modifies this
      ensures Valid()
      ensures r.Pass? || r == Fail(BadAlloc) <==> id in old(live)
      ensures r.Pass? ==> live == old(live) - {id}
      ensures r == Fail(BadAlloc) ==> old(live) - {id} <= live && max == old(max)
      ensures r.Fail? && r.error != BadAlloc ==> live == old(live) && max == old(max) && tree == old(tree)
      ensures r.Fail? && r.error != BadAlloc ==> r.error == if 0 < id <= max then AlreadyFreed else InvalidId
    {
      hide Canonical, IsRun, Range;
      if !(0 < id <= max) {
        return Fail(InvalidId);
      }
      var right := LowerBound(tree, id);
      var left := Before(tree, id);
      RejectsExactlyGaps(tree, Gaps(live, max), id, left, right);
      if left.Some? && left.value.end >= id {
        return Fail(AlreadyFreed);
      }
      if right.Some? && right.value.begin <= id {
        return Fail(AlreadyFreed);
      }
      FreeKeepsState(max, tree, live, id, left, right);
      var range := Interval(id, id);
      if left.Some? && left.value.end == id - 1 {
        range := Interval(left.value.begin, range.end);
        tree := tree - {left.value};
      }
      if right.Some? && right.value.begin == id + 1 {
        range := Interval(range.begin, right.value.end);
        tree := tree - {right.value};
      }
      assert range == Joined(id, left, right);
      assert tree == NotJoined(old(tree), id, left, right);
      live := live - {id};
      if range.end == max {
        max := range.begin - 1;
      } else {
        ghost var full := tree + {range};
        var ok := Insert(range);
        if !ok {
          LostIntervals(max, full, tree, live);
          live := Range(1, max + 1) - Ids(tree);
          return Fail(BadAlloc);
        }
      }
      return Pass;
    }
  }
}
