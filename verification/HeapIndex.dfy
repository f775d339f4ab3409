/**
The two indexes of the heap as B+ trees: which values a tree must hold, and what is left of an index when
an insertion finds too few blocks for its nodes.
*/
module HeapIndexes {
  import opened BTree
  import opened HeapState
  import opened Runs
  import BTreeErase

  /** The capacities of leaves and internal nodes for entries of 12 bytes with keys of 8 bytes. */
  function PageLimits(bs: nat): Limits
    requires bs >= 4
  {
    Limits((bs - 4) / 12, (bs - 4 + 8) / 16)
  }

  /** The same for entries of 12 bytes that are their own keys. */
  function FreeLimits(bs: nat): Limits
    requires bs >= 4
  {
    Limits((bs - 4) / 12, (bs - 4 + 12) / 20)
  }

  /**
  A node is as full as a block allows: behind 4 bytes for its size, a leaf has entries, and an internal node has
  children of 8 bytes with a key between two of them.
  */
  lemma LimitsAre(bs: nat, n: nat, c: nat)
    requires bs >= 4
    ensures PageLimits(bs) == Limits(n, c) <==> 4 + 12 * n <= bs < 4 + 12 * (n + 1) && 4 + 8 * (c - 1) + 8 * c <= bs < 4 + 8 * c + 8 * (c + 1)
    ensures FreeLimits(bs) == Limits(n, c) <==> 4 + 12 * n <= bs < 4 + 12 * (n + 1) && 4 + 12 * (c - 1) + 8 * c <= bs < 4 + 12 * c + 8 * (c + 1)
  {}

  function BlockKey(b: nat): Key {
    b as real
  }

  /** Entries are ordered by space and then by block. */
  function FreeKey(f: FreeEntry): Key {
    f.available as real + 1.0 - 1.0 / (f.block + 1) as real
  }

  lemma Fraction(b: nat, c: nat)
    requires b < c
    ensures 0.0 < 1.0 / (c + 1) as real < 1.0 / (b + 1) as real <= 1.0
  {
    var x, y := (b + 1) as real, (c + 1) as real;
    assert 1.0 / x - 1.0 / y == (y - x) / (x * y);
  }

  lemma FreeKeyOrder(f: FreeEntry, g: FreeEntry)
    ensures f.Before(g) <==> FreeKey(f) < FreeKey(g)
    ensures FreeKey(f) == FreeKey(g) ==> f == g
  {
    Fraction(f.block, f.block + 1);
    Fraction(g.block, g.block + 1);
    if f.block < g.block {
      Fraction(f.block, g.block);
    } else if g.block < f.block {
      Fraction(g.block, f.block);
    }
  }

  ghost function BlockKeys(s: set<nat>): set<Key> {
    set b | b in s :: BlockKey(b)
  }

  ghost function FreeKeys(s: set<FreeEntry>): set<Key> {
    set f | f in s :: FreeKey(f)
  }

  /** A valid tree with exactly these values. */
  ghost predicate Mirrors(l: Limits, tree: Root, keys: set<Key>) {
    l.Ok() && Valid(l, tree) && forall x :: Holds(tree, x) <==> x in keys
  }

  lemma BlockKeysWith(s: set<nat>, c: nat)
    ensures BlockKeys(s + {c}) == BlockKeys(s) + {BlockKey(c)} && (BlockKey(c) in BlockKeys(s) <==> c in s)
  {
    assert c in s ==> BlockKey(c) in BlockKeys(s);
    assert BlockKey(c) in BlockKeys(s + {c}) by { assert c in s + {c}; }
  }

  lemma BlockKeysWithout(s: set<nat>, c: nat)
    ensures BlockKeys(s - {c}) == BlockKeys(s) - {BlockKey(c)}
  {
    forall x | x in BlockKeys(s) - {BlockKey(c)} ensures x in BlockKeys(s - {c}) {
      var b :| b in s && BlockKey(b) == x;
      assert b in s - {c};
    }
  }

  lemma FreeKeysWith(s: set<FreeEntry>, f: FreeEntry)
    ensures FreeKeys(s + {f}) == FreeKeys(s) + {FreeKey(f)} && (FreeKey(f) in FreeKeys(s) <==> f in s)
  {
    hide FreeKey;
    if FreeKey(f) in FreeKeys(s) {
      var g :| g in s && FreeKey(g) == FreeKey(f);
      FreeKeyOrder(f, g);
    }
    assert f in s ==> FreeKey(f) in FreeKeys(s);
    assert FreeKey(f) in FreeKeys(s + {f}) by { assert f in s + {f}; }
    forall x | x in FreeKeys(s) ensures x in FreeKeys(s + {f}) {
      var g :| g in s && FreeKey(g) == x;
      assert g in s + {f};
    }
  }

  lemma FreeKeysWithout(s: set<FreeEntry>, f: FreeEntry)
    ensures FreeKeys(s - {f}) == FreeKeys(s) - {FreeKey(f)}
  {
    hide FreeKey;
    forall x | x in FreeKeys(s - {f}) ensures x in FreeKeys(s) && x != FreeKey(f) {
      var g :| g in s - {f} && FreeKey(g) == x;
      FreeKeyOrder(f, g);
    }
    forall x | x in FreeKeys(s) - {FreeKey(f)} ensures x in FreeKeys(s - {f}) {
      var g :| g in s && FreeKey(g) == x;
      assert g in s - {f};
    }
  }

  // ---- Changing an index.

  /** An insertion with `n` blocks for nodes. */
  lemma {:induction false} MirrorInsert(l: Limits, tree: Root, keys: set<Key>, k: Key, n: nat)
    requires Mirrors(l, tree, keys) && k !in keys
    ensures var o := TryInsert(l, tree, k, n);
            && (o.done <==> Size(Insert(l, tree, k)) <= Size(tree) + n)
            && (o.done ==> Mirrors(l, o.root, keys + {k}) && o.root == Insert(l, tree, k) && Size(tree) <= Size(o.root))
            && (!o.done && !o.torn ==> Mirrors(l, o.root, keys) && Size(o.root) == Size(tree) + n)
            && (o.torn <==> n == 1 && RootFull(l, tree))
            && (o.torn ==> !o.done && MustSplit(l, tree, k) && Valid(l, o.root) && Size(o.root) <= Size(tree))
            && (o.torn ==> forall x :: Holds(o.root, x) ==> x in keys + {k})
  {
    hide Valid, Holds, TryInsert, MustSplit, Size, TearKey;
    Enough(l, tree, k, n);
    OnlyFullRootsSplit(l, tree, k);
    if MustSplit(l, tree, k) && n == 1 {
      Torn(l, tree, k);
    } else {
      TryInsertOk(l, tree, k, n);
    }
  }

  lemma {:induction false} MirrorErase(l: Limits, tree: Root, keys: set<Key>, k: Key)
    requires Mirrors(l, tree, keys)
    ensures Mirrors(l, BTreeErase.Erase(l, tree, k), keys - {k}) && Size(BTreeErase.Erase(l, tree, k)) <= Size(tree)
  {
    hide Valid, Holds, BTreeErase.Erase, Size;
    BTreeErase.EraseOk(l, tree, k);
  }

  /** What is left in an index after an insertion that tore its root. */
  function KeptBlocks(l: Limits, tree: Root, s: set<nat>): set<nat>
    requires Valid(l, tree)
  {
    set b | b in s && Lookup(l, tree, BlockKey(b))
  }

  function KeptEntries(l: Limits, tree: Root, s: set<FreeEntry>): set<FreeEntry>
    requires Valid(l, tree)
  {
    set f | f in s && Lookup(l, tree, FreeKey(f))
  }

  lemma {:induction false} KeptBlocksMirror(l: Limits, tree: Root, s: set<nat>)
    requires l.Ok() && Valid(l, tree) && forall x :: Holds(tree, x) ==> x in BlockKeys(s)
    ensures Mirrors(l, tree, BlockKeys(KeptBlocks(l, tree, s)))
    ensures forall b :: b in KeptBlocks(l, tree, s) <==> b in s && Holds(tree, BlockKey(b))
  {
    hide Valid, Holds, Lookup;
    var kept := KeptBlocks(l, tree, s);
    forall b: nat ensures b in kept <==> b in s && Holds(tree, BlockKey(b)) {
      LookupOk(l, tree, BlockKey(b));
    }
    forall x ensures Holds(tree, x) <==> x in BlockKeys(kept) {
      if Holds(tree, x) {
        var b :| b in s && BlockKey(b) == x;
        assert b in kept;
      }
    }
  }

  lemma {:induction false} KeptEntriesMirror(l: Limits, tree: Root, s: set<FreeEntry>)
    requires l.Ok() && Valid(l, tree) && forall x :: Holds(tree, x) ==> x in FreeKeys(s)
    ensures Mirrors(l, tree, FreeKeys(KeptEntries(l, tree, s)))
    ensures forall f :: f in KeptEntries(l, tree, s) <==> f in s && Holds(tree, FreeKey(f))
  {
    hide Valid, Holds, Lookup, FreeKey;
    var kept := KeptEntries(l, tree, s);
    forall f ensures f in kept <==> f in s && Holds(tree, FreeKey(f)) {
      LookupOk(l, tree, FreeKey(f));
    }
    forall x ensures Holds(tree, x) <==> x in FreeKeys(kept) {
      if Holds(tree, x) {
        var f :| f in s && FreeKey(f) == x;
        assert f in kept;
      }
    }
  }

  /** One node was there for a root that had to be split. */
  ghost predicate IsTorn(l: Limits, tree: Root, s: set<nat>, c: nat, root: Root) {
    Mirrors(l, tree, BlockKeys(s)) && c !in s && MustSplit(l, tree, BlockKey(c)) && root == TryInsert(l, tree, BlockKey(c), 1).root
  }

  lemma TornRoot(l: Limits, tree: Root, s: set<nat>, c: nat, root: Root)
    requires IsTorn(l, tree, s, c, root)
    ensures RootFull(l, tree)
  {
    OnlyFullRootsSplit(l, tree, BlockKey(c));
  }

  /** Entering a block into the index of pages, with `n` blocks for nodes. */
  lemma {:induction false} PageInserted(l: Limits, tree: Root, s: set<nat>, c: nat, n: nat)
    requires Mirrors(l, tree, BlockKeys(s)) && c !in s
    ensures var o := TryInsert(l, tree, BlockKey(c), n);
            && (o.torn <==> n == 1 && RootFull(l, tree)) && (o.torn ==> !o.done && IsTorn(l, tree, s, c, o.root) && Size(o.root) <= Size(tree))
            && (o.done ==> Mirrors(l, o.root, BlockKeys(s + {c})))
            && (!o.done && !o.torn ==> Mirrors(l, o.root, BlockKeys(s)) && Size(o.root) == Size(tree) + n)
  {
    hide Valid, Holds, TryInsert, MustSplit, Size, BlockKeys, RootFull;
    BlockKeysWith(s, c);
    MirrorInsert(l, tree, BlockKeys(s), BlockKey(c), n);
  }

  /** Entering a page into the free map, with `n` blocks for nodes. */
  lemma {:induction false} SpaceInserted(l: Limits, tree: Root, s: set<FreeEntry>, f: FreeEntry, n: nat)
    requires Mirrors(l, tree, FreeKeys(s)) && f !in s
    ensures var o := TryInsert(l, tree, FreeKey(f), n);
            && (o.torn <==> n == 1 && RootFull(l, tree)) && (o.torn ==> !o.done)
            && (o.torn ==> Valid(l, o.root) && Size(o.root) <= Size(tree) && Mirrors(l, o.root, FreeKeys(KeptEntries(l, o.root, s + {f}))))
            && (o.torn ==> KeptEntries(l, o.root, s + {f}) < s + {f})
            && (o.done ==> Mirrors(l, o.root, FreeKeys(s + {f})))
            && (!o.done && !o.torn ==> Mirrors(l, o.root, FreeKeys(s)) && Size(o.root) == Size(tree) + n)
  {
    hide Valid, Holds, TryInsert, MustSplit, Size, FreeKeys, FreeKey, RootFull;
    FreeKeysWith(s, f);
    MirrorInsert(l, tree, FreeKeys(s), FreeKey(f), n);
    if TryInsert(l, tree, FreeKey(f), n).torn {
      Lacking(l, tree, s, f, n);
      KeptEntriesMirror(l, TryInsert(l, tree, FreeKey(f), n).root, s + {f});
    }
  }

  /** The index that found too few blocks for its nodes in its last insertion, and how many it found. */
  datatype Shortage = NoShortage | PageNodes(had: nat) | SpaceNodes(had: nat)

  /** An index is torn exactly when its root is full and there is one block for nodes. */
  ghost predicate Tears(short: Shortage, bs: nat, pageTree: Root, freeTree: Root)
    requires bs >= 4
  {
    match short
    case NoShortage => false
    case PageNodes(n) => n == 1 && RootFull(PageLimits(bs), pageTree)
    case SpaceNodes(n) => n == 1 && RootFull(FreeLimits(bs), freeTree)
  }

  lemma NothingListed(bs: nat)
    requires bs >= 72
    ensures PageLimits(bs).Ok() && FreeLimits(bs).Ok()
    ensures Mirrors(PageLimits(bs), Empty, BlockKeys({})) && Mirrors(FreeLimits(bs), Empty, FreeKeys({}))
  {}

  /** A failed insertion into the free map leaves an entry out. */
  lemma {:induction false} Lacking(l: Limits, tree: Root, s: set<FreeEntry>, f: FreeEntry, n: nat)
    requires Mirrors(l, tree, FreeKeys(s)) && f !in s && !TryInsert(l, tree, FreeKey(f), n).done
    ensures exists g :: g in s + {f} && !Holds(TryInsert(l, tree, FreeKey(f), n).root, FreeKey(g))
  {
    hide Valid, Holds, TryInsert, FreeKey;
    FreeKeysWith(s, f);
    var x := FailureLacksValue(l, tree, FreeKey(f), n);
    var g :| g in s + {f} && FreeKey(g) == x;
  }

  /** Entries are lost from the upper end of the index: no block that is lost comes before one that is kept. */
  lemma {:induction false} TornBlocks(l: Limits, tree: Root, s: set<nat>, c: nat, root: Root)
    requires IsTorn(l, tree, s, c, root)
    ensures && Valid(l, root) && Mirrors(l, root, BlockKeys(KeptBlocks(l, root, s + {c})))
            && KeptBlocks(l, root, s + {c}) <= s + {c}
            && forall b, d :: b in s && d in s && b in KeptBlocks(l, root, s + {c}) && d !in KeptBlocks(l, root, s + {c}) ==> b < d
  {
    hide Valid, Holds, Lookup, TryInsert, MustSplit, TearKey, BlockKeys;
    var k := BlockKey(c);
    Enough(l, tree, k, 1);
    BlockKeysWith(s, c);
    MirrorInsert(l, tree, BlockKeys(s), k, 1);
    KeptBlocksMirror(l, root, s + {c});
    Torn(l, tree, k);
    forall b, d | b in s && d in s && Holds(root, BlockKey(b)) && !Holds(root, BlockKey(d)) ensures b < d {
      BlockKeysWith(s, b);
      BlockKeysWith(s, d);
      assert Holds(tree, BlockKey(d));
    }
  }

  /**
  The root of the index of pages is a full leaf, and the new allocation comes before its last one: when
  there is a block for a new leaf and none for a new root, the index has the new allocation, which was
  given back, instead of the last one.
  */
  lemma {:induction false} LostPage(l: Limits, tree: Root, s: set<nat>, c: nat, root: Root, last: nat)
    requires IsTorn(l, tree, s, c, root) && tree.height == 1 && last in s && c < last && forall b :: b in s ==> b <= last
    ensures Valid(l, root) && KeptBlocks(l, root, s + {c}) == s - {last} + {c}
  {
    hide Valid, Holds, Lookup, TryInsert, BlockKeys, KeptBlocks;
    var k := BlockKey(c);
    LastKey(l, tree, s, last);
    BlockKeysWith(s, c);
    TornRootLeaf(l, tree, k);
    MirrorInsert(l, tree, BlockKeys(s), k, 1);
    Enough(l, tree, k, 1);
    KeptBlocksMirror(l, root, s + {c});
    forall b: nat ensures b in KeptBlocks(l, root, s + {c}) <==> b in s - {last} + {c} {
      BlockKeysWith(s, b);
    }
  }

  lemma {:induction false} LastKey(l: Limits, tree: Root, s: set<nat>, last: nat)
    requires Mirrors(l, tree, BlockKeys(s)) && tree.Root? && tree.height == 1 && last in s && forall b :: b in s ==> b <= last
    ensures tree.tree.Leaf? && |tree.tree.values| > 0 && tree.tree.values[|tree.tree.values| - 1] == BlockKey(last)
  {
    hide BlockKeys;
    ShapeOf(l, tree.tree, 0);
    var values := tree.tree.values;
    var lo, hi :| Ordered(tree.tree, lo, hi);
    var x := values[|values| - 1];
    assert Holds(tree, x) by { assert x in values; }
    BlockKeysWith(s, last);
    assert BlockKey(last) in values;
    SomeBlock(s, x);
  }

  lemma SomeBlock(s: set<nat>, x: Key)
    requires x in BlockKeys(s)
    ensures exists b :: b in s && BlockKey(b) == x
  {}

  /** `n` pages at the first blocks, with a gap before the last one. */
  ghost function WithGap(n: nat): set<nat> {
    Range(1, n) + {n + 1}
  }

  function GapKeys(n: nat): (s: seq<Key>)
    requires n > 0
    ensures |s| == n && (forall i :: 0 <= i < n - 1 ==> s[i] == BlockKey(i + 1)) && s[n - 1] == BlockKey(n + 1)
  {
    seq(n, i requires 0 <= i => BlockKey(if i < n - 1 then i + 1 else n + 1))
  }

  /**
  In every file whose blocks are large enough for pages: as many pages as fit into the root leaf, which are 21 in
  blocks of 256 bytes, a new page in the gap before the last one, and a single block for tree nodes. The index
  then has the new page, which was given back, and the last page is lost.
  */
  lemma LostAtInput(bs: nat)
    requires bs >= 256
    ensures var l := PageLimits(bs);
            var n := l.leafMax;
            && n > 0 && l.Ok() && (bs == 256 ==> n == 21)
            && var tree, s := Root(Leaf(GapKeys(n)), 1), WithGap(n);
               && Valid(l, tree) && Mirrors(l, tree, BlockKeys(s))
               && var o := TryInsert(l, tree, BlockKey(n), 1);
                  IsTorn(l, tree, s, n, o.root) && Valid(l, o.root) && KeptBlocks(l, o.root, s + {n}) == Range(1, n + 1)
  {
    hide TryInsert, Lookup, KeptBlocks;
    var l := PageLimits(bs);
    var n := l.leafMax;
    var tree, s := Root(Leaf(GapKeys(n)), 1), WithGap(n);
    GapFills(l, n);
    LostPage(l, tree, s, n, TryInsert(l, tree, BlockKey(n), 1).root, n + 1);
    assert s - {n + 1} + {n} == Range(1, n + 1);
  }

  lemma GapFills(l: Limits, n: nat)
    requires l.Ok() && n == l.leafMax
    ensures var tree := Root(Leaf(GapKeys(n)), 1); Mirrors(l, tree, BlockKeys(WithGap(n))) && MustSplit(l, tree, BlockKey(n))
  {
    hide LowerBound, Contains, GapKeys;
    var values, s := GapKeys(n), WithGap(n);
    assert Ordered(Leaf(values), 0.0, BlockKey(n + 1));
    forall x ensures x in values <==> x in BlockKeys(s) {
      if x in values {
        var i :| 0 <= i < n && values[i] == x;
        assert (if i < n - 1 then i + 1 else n + 1) in s;
      }
      if x in BlockKeys(s) {
        var b :| b in s && BlockKey(b) == x;
        assert values[if b < n then b - 1 else n - 1] == x;
      }
    }
    InsertedLeaf(values, BlockKey(n), 0.0, BlockKey(n + 1));
  }
}
