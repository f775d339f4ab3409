/**
The blocks an allocator sets aside for its own index trees: a stack of spare blocks and the
node blocks of two trees. Blocks move between the three parts; together they stay the same set.
*/
module MetaPool {
  import opened Runs

  ghost function Elements(s: seq<nat>): set<nat> {
    set x | x in s
  }

  /** The blocks of [lo, lo + n) from the highest to the lowest. */
  ghost function Descending(lo: nat, n: nat): seq<nat>
    decreases n
  {
    if n == 0 then [] else Descending(lo + 1, n - 1) + [lo]
  }

  ghost predicate NoDuplicates(s: seq<nat>) {
    forall i, j :: 0 <= i < j < |s| ==> s[i] != s[j]
  }

  /** The spare blocks and the nodes of the two trees split `meta`. */
  ghost predicate Split(spare: seq<nat>, nodes: set<nat>, others: set<nat>, meta: set<nat>) {
    && NoDuplicates(spare)
    && Elements(spare) !! nodes && Elements(spare) !! others && nodes !! others
    && Elements(spare) + nodes + others == meta
  }

  lemma SplitSwap(spare: seq<nat>, nodes: set<nat>, others: set<nat>, meta: set<nat>)
    requires Split(spare, nodes, others, meta)
    ensures Split(spare, others, nodes, meta)
  {}

  lemma {:induction false} ElementsSize(s: seq<nat>)
    requires NoDuplicates(s)
    ensures |Elements(s)| == |s|
  {
    if s == [] {
      assert Elements(s) == {};
    } else {
      var n := |s| - 1;
      ElementsSize(s[..n]);
      assert Elements(s) == Elements(s[..n]) + {s[n]};
    }
  }

  lemma SplitSize(spare: seq<nat>, nodes: set<nat>, others: set<nat>, meta: set<nat>)
    requires Split(spare, nodes, others, meta)
    ensures |meta| == |spare| + |nodes| + |others|
  {
    ElementsSize(spare);
  }

  /** The top spare block becomes a node. */
  lemma PopToNodes(spare: seq<nat>, nodes: set<nat>, others: set<nat>, meta: set<nat>)
    requires Split(spare, nodes, others, meta) && |spare| > 0
    ensures Split(spare[..|spare| - 1], nodes + {spare[|spare| - 1]}, others, meta)
  {}

  /** A node that is no longer needed becomes a spare block. */
  lemma PushFromNodes(spare: seq<nat>, nodes: set<nat>, others: set<nat>, meta: set<nat>, b: nat)
    requires Split(spare, nodes, others, meta) && b in nodes
    ensures Split(spare + [b], nodes - {b}, others, meta)
  {}

  /** A new block joins the spare ones. */
  lemma PushNew(spare: seq<nat>, nodes: set<nat>, others: set<nat>, meta: set<nat>, b: nat)
    requires Split(spare, nodes, others, meta) && b !in meta
    ensures Split(spare + [b], nodes, others, meta + {b})
  {}

  /** The top spare block leaves. */
  lemma PopAway(spare: seq<nat>, nodes: set<nat>, others: set<nat>, meta: set<nat>)
    requires Split(spare, nodes, others, meta) && |spare| > 0
    ensures Split(spare[..|spare| - 1], nodes, others, meta - {spare[|spare| - 1]})
    ensures spare[|spare| - 1] in meta && Count(meta - {spare[|spare| - 1]}) == Count(meta) - 1
  {}

  /** A range of new blocks joins the spare ones. */
  lemma {:induction false} PushNewRange(spare: seq<nat>, nodes: set<nat>, others: set<nat>, meta: set<nat>, lo: nat, n: nat)
    requires Split(spare, nodes, others, meta) && Range(lo, lo + n) !! meta
    ensures Split(spare + Descending(lo, n), nodes, others, meta + Range(lo, lo + n))
    ensures |Descending(lo, n)| == n
    decreases n
  {
    hide Split;
    if n == 0 {
      assert spare + [] == spare && meta + Range(lo, lo) == meta;
    } else {
      assert Range(lo, lo + n) == {lo} + Range(lo + 1, lo + n);
      PushNewRange(spare, nodes, others, meta, lo + 1, n - 1);
      PushNew(spare + Descending(lo + 1, n - 1), nodes, others, meta + Range(lo + 1, lo + n), lo);
      assert spare + Descending(lo + 1, n - 1) + [lo] == spare + Descending(lo, n);
      assert meta + Range(lo + 1, lo + n) + {lo} == meta + Range(lo, lo + n);
    }
  }
}
