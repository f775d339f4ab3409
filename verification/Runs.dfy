/**
Finite sets of natural numbers, read as block numbers or ids, and their decomposition
into maximal runs: intervals inside the set that cannot be extended on either side.
*/
module Runs {

  /** The half-open interval [lo, hi). */
  ghost function Range(lo: nat, hi: nat): (r: set<nat>)
    ensures forall x :: x in r <==> lo <= x < hi
  {
    if lo < hi then Range(lo, hi - 1) + {hi - 1} else {}
  }

  /** The number of elements. */
  ghost function Count(s: set<nat>): nat {
    |s|
  }

  lemma {:induction false} RangeSize(lo: nat, hi: nat)
    requires lo <= hi
    ensures Count(Range(lo, hi)) == hi - lo
    decreases hi - lo
  {
    if lo < hi {
      RangeSize(lo, hi - 1);
      assert Range(lo, hi) == Range(lo, hi - 1) + {hi - 1};
    }
  }

  lemma OneBlock(b: nat)
    ensures Range(b, b + 1) == {b}
  {}

  lemma CountOne(b: nat)
    ensures Count({b}) == 1
  {}

  lemma CountUnion(s: set<nat>, r: set<nat>)
    requires s !! r
    ensures Count(s + r) == Count(s) + Count(r)
  {}

  lemma CountMinus(s: set<nat>, r: set<nat>)
    requires r <= s
    ensures Count(s - r) == Count(s) - Count(r)
  {}

  lemma RangeSplit(lo: nat, mid: nat, hi: nat)
    requires lo <= mid <= hi
    ensures Range(lo, hi) == Range(lo, mid) + Range(mid, hi) && Range(lo, mid) !! Range(mid, hi)
  {}

  /** [lo, hi) is nonempty, lies inside `s`, and touches no other element of `s`. */
  ghost predicate IsRun(s: set<nat>, lo: nat, hi: nat) {
    && lo < hi
    && (forall x :: lo <= x < hi ==> x in s)
    && (lo > 0 ==> lo - 1 !in s)
    && hi !in s
  }

  lemma RunInside(s: set<nat>, lo: nat, hi: nat)
    requires IsRun(s, lo, hi)
    ensures lo < hi && Range(lo, hi) <= s
  {}

  /** Distinct maximal runs of one set neither overlap nor touch. */
  lemma RunsApart(s: set<nat>, lo: nat, hi: nat, lo': nat, hi': nat)
    requires IsRun(s, lo, hi) && IsRun(s, lo', hi')
    ensures (lo == lo' && hi == hi') || hi < lo' || hi' < lo
  {}

  /** Adding [a, b) merges it with the runs that end at `a` and start at `b`. */
  lemma RunMerges(s: set<nat>, a: nat, b: nat, lo: nat, hi: nat)
    requires lo <= a < b <= hi && Range(a, b) !! s
    requires if lo < a then IsRun(s, lo, a) else a == 0 || a - 1 !in s
    requires if b < hi then IsRun(s, b, hi) else b !in s
    ensures IsRun(s + Range(a, b), lo, hi)
  {}

  /** Adding [a, b) leaves every run that does not touch it a run. */
  lemma RunSurvives(s: set<nat>, a: nat, b: nat, lo: nat, hi: nat)
    requires a < b && Range(a, b) !! s && IsRun(s, lo, hi)
    requires hi != a && lo != b
    ensures IsRun(s + Range(a, b), lo, hi) && (hi < a || b < lo)
  {}
}
