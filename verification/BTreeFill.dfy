/**
The B+ tree stays balanced: after any insertions and erasures all nodes are at least half full, except for the
root and for the first and the last leaf, which are kept open for values in order.
*/
module BTreeFill {
  import opened Blocks
  import opened BTree
  import opened BTreeErase

  /** How many values and how many children a node must have at least. */
  datatype Fill = Fill(leaf: nat, children: nat)

  function Half(l: Limits): Fill {
    Fill(MinLeaf(l), MinChildren(l))
  }

  /** A tree whose leaves are `h` levels down; its first or last leaf may be the first or last of the whole tree. */
  ghost predicate Filled(f: Fill, t: Tree, h: nat, leftmost: bool, rightmost: bool)
    decreases h, 2
  {
    if h == 0 then t.Leaf? && (leftmost || rightmost || |t.values| >= f.leaf)
    else t.Node? && |t.children| >= f.children && Below(f, t.children, h, leftmost, rightmost)
  }

  /** The same for the children of a node, whose own size does not matter. */
  ghost predicate Below(f: Fill, children: seq<Tree>, h: nat, leftmost: bool, rightmost: bool)
    decreases h, 1
  {
    h > 0 && forall i :: 0 <= i < |children| ==> At(f, children, h, leftmost, rightmost, i)
  }

  ghost predicate At(f: Fill, children: seq<Tree>, h: nat, leftmost: bool, rightmost: bool, i: nat)
    requires h > 0 && i < |children|
    decreases h, 0
  {
    Filled(f, children[i], h - 1, leftmost && i == 0, rightmost && i + 1 == |children|)
  }

  /** What is full enough anywhere is so at the edge of the tree. */
  lemma {:induction false} AtEdge(f: Fill, t: Tree, h: nat, a: bool, b: bool, a': bool, b': bool)
    requires Filled(f, t, h, a, b) && (a ==> a') && (b ==> b')
    ensures Filled(f, t, h, a', b')
    decreases h
  {
    if h > 0 {
      forall i | 0 <= i < |t.children| ensures At(f, t.children, h, a', b', i) {
        assert At(f, t.children, h, a, b, i);
        AtEdge(f, t.children[i], h - 1, a && i == 0, b && i + 1 == |t.children|, a' && i == 0, b' && i + 1 == |t.children|);
      }
    }
  }

  // ---- Putting nodes together and taking them apart.

  lemma {:induction false} Concatenated(f: Fill, u: seq<Tree>, v: seq<Tree>, h: nat, a: bool, b: bool)
    requires Below(f, u, h, a, false) && Below(f, v, h, false, b)
    ensures Below(f, u + v, h, a, b)
  {
    hide Filled;
    var c := u + v;
    forall i | 0 <= i < |c| ensures At(f, c, h, a, b, i) {
      if i < |u| {
        assert At(f, u, h, a, false, i);
        AtEdge(f, c[i], h - 1, a && i == 0, false, a && i == 0, b && i + 1 == |c|);
      } else {
        assert At(f, v, h, false, b, i - |u|);
        AtEdge(f, c[i], h - 1, false, b && i + 1 == |c|, a && i == 0, b && i + 1 == |c|);
      }
    }
  }

  lemma {:induction false} Taken(f: Fill, c: seq<Tree>, h: nat, a: bool, b: bool, m: nat)
    requires Below(f, c, h, a, b) && m <= |c|
    ensures m < |c| ==> Below(f, c[..m], h, a, false)
    ensures m > 0 ==> Below(f, c[m..], h, false, b)
  {
    hide Filled;
    if m < |c| {
      forall i | 0 <= i < m ensures At(f, c[..m], h, a, false, i) {
        assert At(f, c, h, a, b, i);
      }
    }
    if m > 0 {
      forall i | 0 <= i < |c[m..]| ensures At(f, c[m..], h, false, b, i) {
        assert At(f, c, h, a, b, m + i);
      }
    }
  }

  /** Some children in a row are replaced by others. */
  lemma {:induction false} Replaced(f: Fill, c: seq<Tree>, h: nat, a: bool, b: bool, i: nat, j: nat, s: seq<Tree>)
    requires h > 0 && i < j <= |c| && Below(f, s, h, a && i == 0, b && j == |c|)
    requires forall p :: 0 <= p < |c| && (p < i || j <= p) ==> At(f, c, h, a, b, p)
    ensures Below(f, c[..i] + s + c[j..], h, a, b)
  {
    hide Filled;
    var r := c[..i] + s + c[j..];
    forall p | 0 <= p < |r| ensures At(f, r, h, a, b, p) {
      if p < i {
        assert At(f, c, h, a, b, p);
        AtEdge(f, r[p], h - 1, a && p == 0, false, a && p == 0, b && p + 1 == |r|);
      } else if p < i + |s| {
        assert At(f, s, h, a && i == 0, b && j == |c|, p - i);
        AtEdge(f, r[p], h - 1, a && p == 0, b && j == |c| && p + 1 == |r|, a && p == 0, b && p + 1 == |r|);
      } else {
        assert At(f, c, h, a, b, p - i - |s| + j);
        AtEdge(f, r[p], h - 1, false, b && p + 1 == |r|, a && p == 0, b && p + 1 == |r|);
      }
    }
  }

  lemma OneBelow(f: Fill, t: Tree, h: nat, a: bool, b: bool)
    requires Filled(f, t, h, a, b)
    ensures Below(f, [t], h + 1, a, b)
  {
    hide Filled;
    assert At(f, [t], h + 1, a, b, 0);
  }

  lemma TwoBelow(f: Fill, t: Tree, u: Tree, h: nat, a: bool, b: bool)
    requires Filled(f, t, h, a, false) && Filled(f, u, h, false, b)
    ensures Below(f, [t, u], h + 1, a, b)
  {
    hide Filled;
    OneBelow(f, t, h, a, false);
    OneBelow(f, u, h, false, b);
    Concatenated(f, [t], [u], h + 1, a, b);
    assert [t] + [u] == [t, u];
  }

  lemma {:induction false} WithChildBelow(f: Fill, t: Tree, h: nat, i: nat, c: Tree, a: bool, b: bool)
    requires h > 0 && t.Node? && i < |t.children| && Below(f, t.children, h, a, b)
    requires Filled(f, c, h - 1, a && i == 0, b && i + 1 == |t.children|)
    ensures Below(f, WithChild(t, i, c).children, h, a, b)
  {
    hide Filled;
    OneBelow(f, c, h - 1, a && i == 0, b && i + 1 == |t.children|);
    Replaced(f, t.children, h, a, b, i, i + 1, [c]);
    assert t.children[i := c] == t.children[..i] + [c] + t.children[i + 1..];
  }

  lemma {:induction false} WithSplitBelow(f: Fill, t: Tree, h: nat, i: nat, s: Halves, a: bool, b: bool)
    requires h > 0 && t.Node? && i < |t.children| == |t.keys| + 1 && Below(f, t.children, h, a, b)
    requires Filled(f, s.left, h - 1, a && i == 0, false) && Filled(f, s.right, h - 1, false, b && i + 1 == |t.children|)
    ensures Below(f, WithSplit(t, i, s).children, h, a, b)
  {
    hide Filled;
    TwoBelow(f, s.left, s.right, h - 1, a && i == 0, b && i + 1 == |t.children|);
    Replaced(f, t.children, h, a, b, i, i + 1, [s.left, s.right]);
  }

  // ---- Insertion.

  /** Both parts of a full leaf are at least half full, except for the one at the edge. */
  lemma {:induction false} SplitLeafFilled(l: Limits, values: seq<Key>, k: Key, first: bool, last: bool)
    requires l.Ok() && |values| == l.leafMax
    ensures var s := SplitLeaf(values, k, first, last); Filled(Half(l), s.left, 0, first, false) && Filled(Half(l), s.right, 0, false, last)
  {
    hide LowerBound;
    InsertedSize(values, k);
  }

  /** Both halves of a full internal node are at least half full. */
  lemma {:induction false} SplitFilled(l: Limits, t: Tree, h: nat, a: bool, b: bool)
    requires l.Ok() && h > 0 && t.Node? && |t.children| == |t.keys| + 1 == l.childMax && Below(Half(l), t.children, h, a, b)
    ensures var s := Split(t);
            && s.left.Node? && |s.left.children| >= MinChildren(l) && Below(Half(l), s.left.children, h, a, false)
            && s.right.Node? && |s.right.children| >= MinChildren(l) && Below(Half(l), s.right.children, h, false, b)
  {
    hide Filled, Below;
    Taken(Half(l), t.children, h, a, b, (|t.children| + 1) / 2);
  }

  lemma {:induction false} InsertDownFilled(l: Limits, t: Tree, h: nat, k: Key, a: bool, b: bool, n: nat)
    requires l.Ok() && h > 0 && t.Node? && Shaped(l, t, h) && |t.children| < l.childMax && Below(Half(l), t.children, h, a, b)
    ensures var r := InsertDown(l, t, h, k, a, b, n).tree; r.Node? && |r.children| >= |t.children| && Below(Half(l), r.children, h, a, b)
    decreases h, 1
  {
    hide Filled, Shaped, LowerBound, Contains, InsertValue, SplitLeaf, Split, Below;
    var i := LowerBound(t.keys, k);
    ShapeOf(l, t, h);
    ChildShaped(l, t, h, i);
    var child, first, last := t.children[i], a && i == 0, b && i == |t.keys|;
    ChildFilled(Half(l), t.children, h, a, b, i);
    if h == 1 {
      InsertLeafFilled(l, t, i, k, a, b);
    } else if |child.children| < l.childMax {
      InsertDownFilled(l, child, h - 1, k, first, last, n);
      var c := InsertDown(l, child, h - 1, k, first, last, n).tree;
      NodeFilled(Half(l), c, h - 1, first, last);
      WithChildBelow(Half(l), t, h, i, c, a, b);
    } else if n > 0 {
      InsertSplitFilled(l, t, h, i, k, a, b, n - 1);
    }
  }

  lemma ChildFilled(f: Fill, c: seq<Tree>, h: nat, a: bool, b: bool, i: nat)
    requires Below(f, c, h, a, b) && i < |c|
    ensures Filled(f, c[i], h - 1, a && i == 0, b && i + 1 == |c|)
    ensures h > 1 ==> c[i].Node? && |c[i].children| >= f.children && Below(f, c[i].children, h - 1, a && i == 0, b && i + 1 == |c|)
  {
    assert At(f, c, h, a, b, i);
  }

  lemma NodeFilled(f: Fill, t: Tree, h: nat, a: bool, b: bool)
    requires h > 0 && t.Node? && |t.children| >= f.children && Below(f, t.children, h, a, b)
    ensures Filled(f, t, h, a, b)
  {}

  lemma {:induction false} InsertLeafFilled(l: Limits, t: Tree, i: nat, k: Key, a: bool, b: bool)
    requires l.Ok() && t.Node? && i < |t.children| == |t.keys| + 1 && Below(Half(l), t.children, 1, a, b) && t.children[i].Leaf?
    ensures var values := t.children[i].values;
            && |InsertValue(values, k)| == |values| + 1
            && Below(Half(l), WithChild(t, i, Leaf(InsertValue(values, k))).children, 1, a, b)
            && (|values| == l.leafMax ==> Below(Half(l), WithSplit(t, i, SplitLeaf(values, k, a && i == 0, b && i == |t.keys|)).children, 1, a, b))
  {
    hide LowerBound, Below, InsertValue, SplitLeaf;
    var values := t.children[i].values;
    ChildFilled(Half(l), t.children, 1, a, b, i);
    InsertedSize(values, k);
    WithChildBelow(Half(l), t, 1, i, Leaf(InsertValue(values, k)), a, b);
    if |values| == l.leafMax {
      SplitLeafFilled(l, values, k, a && i == 0, b && i == |t.keys|);
      WithSplitBelow(Half(l), t, 1, i, SplitLeaf(values, k, a && i == 0, b && i == |t.keys|), a, b);
    }
  }

  lemma {:induction false} InsertSplitFilled(l: Limits, t: Tree, h: nat, i: nat, k: Key, a: bool, b: bool, n: nat)
    requires l.Ok() && h > 1 && t.Node? && Shaped(l, t, h) && i < |t.children| < l.childMax && |t.children| == |t.keys| + 1 && Below(Half(l), t.children, h, a, b)
    requires t.children[i].Node? && |t.children[i].children| == l.childMax
    ensures var r := InsertSplit(l, t, h, i, k, a && i == 0, b && i == |t.keys|, n).tree; r.Node? && |r.children| >= |t.children| && Below(Half(l), r.children, h, a, b)
    decreases h, 0
  {
    hide Filled, Shaped, LowerBound, Split, Below;
    var c, first, last := t.children[i], a && i == 0, b && i == |t.keys|;
    ChildShaped(l, t, h, i);
    ChildFilled(Half(l), t.children, h, a, b, i);
    HalvesShaped(l, c, h - 1);
    SplitFilled(l, c, h - 1, first, last);
    var s := Split(c);
    NodeFilled(Half(l), s.left, h - 1, first, false);
    NodeFilled(Half(l), s.right, h - 1, false, last);
    if LowerBound(c.keys, k) < |s.left.children| {
      InsertDownFilled(l, s.left, h - 1, k, first, false, n);
      var u := InsertDown(l, s.left, h - 1, k, first, false, n).tree;
      NodeFilled(Half(l), u, h - 1, first, false);
      WithSplitBelow(Half(l), t, h, i, s.(left := u), a, b);
    } else {
      InsertDownFilled(l, s.right, h - 1, k, false, last, n);
      var u := InsertDown(l, s.right, h - 1, k, false, last, n).tree;
      NodeFilled(Half(l), u, h - 1, false, last);
      WithSplitBelow(Half(l), t, h, i, s.(right := u), a, b);
    }
  }

  /** Every node of a tree but its root is at least half full; the first and the last leaf need not be. */
  ghost predicate Balanced(l: Limits, r: Root) {
    r.Root? && r.height > 1 ==> r.tree.Node? && Below(Half(l), r.tree.children, r.height - 1, true, true)
  }

  /** An insertion with any number of nodes keeps the tree balanced, even if its root is torn. */
  lemma {:induction false} InsertBalanced(l: Limits, r: Root, k: Key, n: nat)
    requires l.Ok() && Valid(l, r) && Balanced(l, r)
    ensures Balanced(l, TryInsert(l, r, k, n).root)
  {
    hide Filled, Shaped, LowerBound, Contains, InsertValue, SplitLeaf, Split, Below, InsertDown, Ordered;
    if r.Root? {
      ShapeOf(l, r.tree, r.height - 1);
      if r.height == 1 {
        if |r.tree.values| == l.leafMax {
          SplitLeafFilled(l, r.tree.values, k, true, true);
          var s := SplitLeaf(r.tree.values, k, true, true);
          TwoBelow(Half(l), s.left, s.right, 0, true, true);
        }
      } else if |r.tree.children| < l.childMax {
        InsertDownFilled(l, r.tree, r.height - 1, k, true, true, n);
      } else {
        InsertFullBalanced(l, r, k, n);
      }
    }
  }

  lemma {:induction false} InsertFullBalanced(l: Limits, r: Root, k: Key, n: nat)
    requires l.Ok() && Valid(l, r) && Balanced(l, r) && r.Root? && r.height > 1 && r.tree.Node?
    requires |r.tree.children| == l.childMax && |r.tree.children| == |r.tree.keys| + 1
    ensures Balanced(l, TryInsert(l, r, k, n).root)
  {
    hide Filled, Shaped, LowerBound, Contains, InsertValue, SplitLeaf, Split, Below, InsertDown, Ordered;
    var h := r.height - 1;
    SplitFilled(l, r.tree, h, true, true);
    HalvesShaped(l, r.tree, h);
    var s := Split(r.tree);
    GrownShaped(l, s, h);
    NodeFilled(Half(l), s.left, h, true, false);
    NodeFilled(Half(l), s.right, h, false, true);
    TwoBelow(Half(l), s.left, s.right, h, true, true);
    LastAtEdge(Half(l), s.left.children, h);
    if n >= 2 {
      InsertDownFilled(l, Grown(s, r.height).tree, r.height, k, true, true, n - 2);
    }
  }

  lemma LastAtEdge(f: Fill, c: seq<Tree>, h: nat)
    requires Below(f, c, h, true, false)
    ensures Below(f, c, h, true, true)
  {
    hide Filled;
    Concatenated(f, c, [], h, true, true);
    assert c + [] == c;
  }

  // ---- Erasing.

  /** All leaves but one are full enough, and that one lacks at most one value. */
  ghost predicate AlmostLeaves(l: Limits, t: Tree, i: nat, a: bool, b: bool) {
    && OverLeaves(t) && i < |t.children|
    && (forall p :: 0 <= p < |t.children| && p != i ==> At(Half(l), t.children, 1, a, b, p))
    && ((a && i == 0) || (b && i + 1 == |t.children|) || |t.children[i].values| + 1 >= MinLeaf(l))
  }

  lemma {:induction false} PairedBelow(f: Fill, t: Tree, h: nat, i: nat, j: nat, s: Tree, a: bool, b: bool)
    requires h > 0 && t.Node? && j <= i <= j + 1 < |t.children| == |t.keys| + 1 && s.Node?
    requires forall p :: 0 <= p < |t.children| && p != i ==> At(f, t.children, h, a, b, p)
    requires Below(f, s.children, h, a && j == 0, b && j + 2 == |t.children|)
    ensures Below(f, Paired(t, j, s).children, h, a, b)
  {
    hide Filled;
    Replaced(f, t.children, h, a, b, j, j + 2, s.children);
  }

  lemma {:induction false} JoinedLeafBelow(l: Limits, t: Tree, i: nat, j: nat, a: bool, b: bool)
    requires AlmostLeaves(l, t, i, a, b) && j <= i <= j + 1 < |t.children|
    requires (a && j == 0) || (b && j + 2 == |t.children|) || |Both(t, j)| >= MinLeaf(l)
    ensures Below(Half(l), JoinLeaves(t, j).children, 1, a, b)
  {
    hide Both, Paired;
    var c := Leaf(Both(t, j));
    OneBelow(Half(l), c, 0, a && j == 0, b && j + 2 == |t.children|);
    PairedBelow(Half(l), t, 1, i, j, Node([], [c]), a, b);
  }

  lemma {:induction false} RecutLeafBelow(l: Limits, t: Tree, i: nat, j: nat, m: nat, a: bool, b: bool)
    requires AlmostLeaves(l, t, i, a, b) && j <= i <= j + 1 < |t.children| && 0 < m < |Both(t, j)|
    requires (a && j == 0) || m >= MinLeaf(l)
    requires (b && j + 2 == |t.children|) || |Both(t, j)| - m >= MinLeaf(l)
    ensures Below(Half(l), RecutLeaves(t, j, m).children, 1, a, b)
  {
    hide Both, Paired;
    var all := Both(t, j);
    TwoBelow(Half(l), Leaf(all[..m]), Leaf(all[m..]), 0, a && j == 0, b && j + 2 == |t.children|);
    PairedBelow(Half(l), t, 1, i, j, Node([all[m - 1]], [Leaf(all[..m]), Leaf(all[m..])]), a, b);
  }

  /** A leaf that lost a value is repaired: it and all others are full enough. */
  lemma {:induction false} FixLeafFilled(l: Limits, t: Tree, i: nat, a: bool, b: bool)
    requires l.Ok() && Leaves(l, t, i) && AlmostLeaves(l, t, i, a, b)
    ensures Below(Half(l), FixLeaf(l, t, i, a, b).children, 1, a, b)
  {
    hide JoinLeaves, RecutLeaves, Below;
    var n, size := |t.children|, |t.children[i].values|;
    if (a && i == 0) || (b && i + 1 == n) {
      if size == 0 {
        JoinedLeafBelow(l, t, i, if i == 0 then 0 else i - 1, a, b);
      } else if a && b && n == 2 && |Both(t, 0)| <= l.leafMax {
        JoinedLeafBelow(l, t, i, 0, a, b);
      } else {
        AllLeaves(l, t, i, a, b);
      }
    } else if size >= MinLeaf(l) {
      AllLeaves(l, t, i, a, b);
    } else if i + 1 < n && Gives(l, t, i + 1, b && i + 2 == n) {
      RecutLeafBelow(l, t, i, i, size + 1, a, b);
    } else if i > 0 && Gives(l, t, i - 1, a && i == 1) {
      RecutLeafBelow(l, t, i, i - 1, |t.children[i - 1].values| - 1, a, b);
    } else if i + 1 < n {
      assert At(Half(l), t.children, 1, a, b, i + 1);
      JoinedLeafBelow(l, t, i, i, a, b);
    } else {
      assert At(Half(l), t.children, 1, a, b, i - 1);
      JoinedLeafBelow(l, t, i, i - 1, a, b);
    }
  }

  lemma AllLeaves(l: Limits, t: Tree, i: nat, a: bool, b: bool)
    requires AlmostLeaves(l, t, i, a, b) && ((a && i == 0) || (b && i + 1 == |t.children|) || |t.children[i].values| >= MinLeaf(l))
    ensures Below(Half(l), t.children, 1, a, b)
  {
    assert t.children[i] in t.children;
    assert At(Half(l), t.children, 1, a, b, i);
  }

  /** All nodes but one are full enough, and that one lacks at most one child. */
  ghost predicate AlmostNodes(l: Limits, t: Tree, h: nat, i: nat, a: bool, b: bool) {
    && h > 1 && OverNodes(t) && i < |t.children|
    && (forall p :: 0 <= p < |t.children| && p != i ==> At(Half(l), t.children, h, a, b, p))
    && |t.children[i].children| + 1 >= MinChildren(l)
    && Below(Half(l), t.children[i].children, h - 1, a && i == 0, b && i + 1 == |t.children|)
  }

  lemma AlmostChild(l: Limits, t: Tree, h: nat, i: nat, a: bool, b: bool, p: nat)
    requires AlmostNodes(l, t, h, i, a, b) && p < |t.children|
    ensures t.children[p].Node? && Below(Half(l), t.children[p].children, h - 1, a && p == 0, b && p + 1 == |t.children|)
    ensures |t.children[p].children| + (if p == i then 1 else 0) >= MinChildren(l)
  {
    assert t.children[p] in t.children;
    if p != i {
      assert At(Half(l), t.children, h, a, b, p);
      assert Filled(Half(l), t.children[p], h - 1, a && p == 0, b && p + 1 == |t.children|);
    }
  }

  lemma {:induction false} JoinedBelow(l: Limits, t: Tree, h: nat, i: nat, j: nat, a: bool, b: bool)
    requires AlmostNodes(l, t, h, i, a, b) && j + 1 < |t.children|
    ensures Below(Half(l), Joined(t, j).children, h - 1, a && j == 0, b && j + 2 == |t.children|)
  {
    hide Filled, Below, AlmostNodes;
    AlmostParts(l, t, h, i, a, b);
    AlmostChild(l, t, h, i, a, b, j);
    AlmostChild(l, t, h, i, a, b, j + 1);
    Concatenated(Half(l), t.children[j].children, t.children[j + 1].children, h - 1, a && j == 0, b && j + 2 == |t.children|);
  }

  lemma AlmostParts(l: Limits, t: Tree, h: nat, i: nat, a: bool, b: bool)
    requires AlmostNodes(l, t, h, i, a, b)
    ensures h > 1 && OverNodes(t) && i < |t.children| && forall p :: 0 <= p < |t.children| && p != i ==> At(Half(l), t.children, h, a, b, p)
  {}

  lemma {:induction false} JoinNodesBelow(l: Limits, t: Tree, h: nat, i: nat, j: nat, a: bool, b: bool)
    requires l.Ok() && AlmostNodes(l, t, h, i, a, b) && j <= i <= j + 1 < |t.children|
    ensures Below(Half(l), JoinNodes(t, j).children, h, a, b)
  {
    hide Filled, Below, AlmostNodes, Paired, At;
    AlmostParts(l, t, h, i, a, b);
    AlmostChild(l, t, h, i, a, b, j);
    AlmostChild(l, t, h, i, a, b, j + 1);
    JoinedBelow(l, t, h, i, j, a, b);
    var c := Joined(t, j);
    NodeFilled(Half(l), c, h - 1, a && j == 0, b && j + 2 == |t.children|);
    OneBelow(Half(l), c, h - 1, a && j == 0, b && j + 2 == |t.children|);
    PairedBelow(Half(l), t, h, i, j, Node([], [c]), a, b);
  }

  lemma {:induction false} RecutNodesBelow(l: Limits, t: Tree, h: nat, i: nat, j: nat, m: nat, a: bool, b: bool)
    requires AlmostNodes(l, t, h, i, a, b) && j <= i <= j + 1 < |t.children|
    requires 0 < MinChildren(l) <= m && m + MinChildren(l) <= |t.children[j].children| + |t.children[j + 1].children|
    ensures Below(Half(l), RecutNodes(t, j, m).children, h, a, b)
  {
    hide Filled, Below, AlmostNodes, Paired, At;
    AlmostParts(l, t, h, i, a, b);
    JoinedBelow(l, t, h, i, j, a, b);
    var c, first, last := Joined(t, j), a && j == 0, b && j + 2 == |t.children|;
    Taken(Half(l), c.children, h - 1, first, last, m);
    var s := CutAt(c, m);
    NodeFilled(Half(l), s.left, h - 1, first, false);
    NodeFilled(Half(l), s.right, h - 1, false, last);
    TwoBelow(Half(l), s.left, s.right, h - 1, first, last);
    PairedBelow(Half(l), t, h, i, j, Node([s.key], [s.left, s.right]), a, b);
  }

  /** A node that lost a child is repaired: it and all others are full enough. */
  lemma {:induction false} FixNodeFilled(l: Limits, t: Tree, h: nat, i: nat, a: bool, b: bool)
    requires l.Ok() && AlmostNodes(l, t, h, i, a, b)
    ensures Below(Half(l), FixNode(l, t, i).children, h, a, b)
  {
    hide Filled, Below, AlmostNodes, JoinNodes, RecutNodes, At;
    AlmostParts(l, t, h, i, a, b);
    AlmostChild(l, t, h, i, a, b, i);
    var n, size := |t.children|, |t.children[i].children|;
    if size >= MinChildren(l) {
      AllNodes(l, t, h, i, a, b);
    } else if i + 1 < n && |t.children[i + 1].children| > MinChildren(l) {
      RecutNodesBelow(l, t, h, i, i, size + 1, a, b);
    } else if i > 0 && |t.children[i - 1].children| > MinChildren(l) {
      RecutNodesBelow(l, t, h, i, i - 1, |t.children[i - 1].children| - 1, a, b);
    } else if i > 0 {
      JoinNodesBelow(l, t, h, i, i - 1, a, b);
    } else {
      JoinNodesBelow(l, t, h, i, i, a, b);
    }
  }

  lemma AllNodes(l: Limits, t: Tree, h: nat, i: nat, a: bool, b: bool)
    requires AlmostNodes(l, t, h, i, a, b) && |t.children[i].children| >= MinChildren(l)
    ensures Below(Half(l), t.children, h, a, b)
  {
    assert t.children[i] in t.children;
    assert At(Half(l), t.children, h, a, b, i);
  }

  lemma {:induction false} AlmostWithout(l: Limits, t: Tree, i: nat, k: Key, a: bool, b: bool)
    requires Shaped(l, t, 1) && t.Node? && i < |t.children| && Below(Half(l), t.children, 1, a, b) && t.children[i].Leaf? && Contains(t.children[i].values, k)
    ensures AlmostLeaves(l, WithChild(t, i, Leaf(Without(t.children[i].values, k))), i, a, b)
  {
    hide LowerBound;
    LeavesWithout(l, t, i, k);
    var r := WithChild(t, i, Leaf(Without(t.children[i].values, k)));
    ChildFilled(Half(l), t.children, 1, a, b, i);
    forall p | 0 <= p < |r.children| && p != i ensures At(Half(l), r.children, 1, a, b, p) {
      assert At(Half(l), t.children, 1, a, b, p);
    }
  }

  lemma {:induction false} AlmostWith(l: Limits, t: Tree, h: nat, i: nat, c: Tree, a: bool, b: bool)
    requires h > 1 && Shaped(l, t, h) && t.Node? && i < |t.children| && Below(Half(l), t.children, h, a, b) && Thin(l, c, h - 1)
    requires |c.children| + 1 >= MinChildren(l) && Below(Half(l), c.children, h - 1, a && i == 0, b && i + 1 == |t.children|)
    ensures AlmostNodes(l, WithChild(t, i, c), h, i, a, b)
  {
    hide Filled, Shaped, Thin;
    NestedWith(l, t, h, i, c);
    var r := WithChild(t, i, c);
    forall p | 0 <= p < |r.children| && p != i ensures At(Half(l), r.children, h, a, b, p) {
      assert At(Half(l), t.children, h, a, b, p);
    }
  }

  lemma {:induction false} EraseDownFilled(l: Limits, t: Tree, h: nat, k: Key, a: bool, b: bool)
    requires l.Ok() && h > 0 && t.Node? && Shaped(l, t, h) && Below(Half(l), t.children, h, a, b)
    ensures Below(Half(l), EraseDown(l, t, h, k, a, b).children, h, a, b)
    decreases h
  {
    hide Filled, Shaped, LowerBound, Contains, Without, Below, FixLeaf, FixNode, Leaves, Nested, AlmostLeaves, AlmostNodes;
    var i := LowerBound(t.keys, k);
    ShapeOf(l, t, h);
    ChildShaped(l, t, h, i);
    var child := t.children[i];
    ChildFilled(Half(l), t.children, h, a, b, i);
    if h == 1 {
      if Contains(child.values, k) {
        LeavesWithout(l, t, i, k);
        AlmostWithout(l, t, i, k, a, b);
        FixLeafFilled(l, WithChild(t, i, Leaf(Without(child.values, k))), i, a, b);
      }
    } else {
      var c := EraseDown(l, child, h - 1, k, a && i == 0, b && i == |t.keys|);
      EraseDownFilled(l, child, h - 1, k, a && i == 0, b && i == |t.keys|);
      AlmostWith(l, t, h, i, c, a, b);
      if |c.children| == |child.children| {
        NodeFilled(Half(l), c, h - 1, a && i == 0, b && i == |t.keys|);
        WithChildBelow(Half(l), t, h, i, c, a, b);
      } else {
        FixNodeFilled(l, WithChild(t, i, c), h, i, a, b);
      }
    }
  }

  /** Erasing keeps the tree balanced. */
  lemma {:induction false} EraseBalanced(l: Limits, r: Root, k: Key)
    requires l.Ok() && Valid(l, r) && Balanced(l, r)
    ensures Balanced(l, Erase(l, r, k))
  {
    hide Filled, Shaped, LowerBound, Contains, Without, Below, EraseDown, Thin, Ordered;
    if r.Root? && r.height > 1 {
      ShapeOf(l, r.tree, r.height - 1);
      var h := r.height - 1;
      EraseDownFilled(l, r.tree, h, k, true, true);
      var t := EraseDown(l, r.tree, h, k, true, true);
      ThinNode(l, t, h);
      if |t.children| == 1 {
        ChildFilled(Half(l), t.children, h, true, true, 0);
      }
    }
  }

  /** The last two leaves become one exactly if the values that are left fit into it. */
  lemma {:induction false} TwoLeaves(l: Limits, r: Root, k: Key)
    requires l.Ok() && Valid(l, r) && r.Root? && r.height == 2 && r.tree.Node? && |r.tree.children| == 2 && Holds(r, k)
    ensures r.tree.children[0].Leaf? && r.tree.children[1].Leaf?
    ensures HeightOf(Erase(l, r, k)) == if |r.tree.children[0].values| + |r.tree.children[1].values| - 1 <= l.leafMax then 1 else 2
  {
    hide Ordered, LowerBound, Has;
    var t, i := r.tree, LowerBound(r.tree.keys, k);
    ShapeOf(l, t, 1);
    ChildShaped(l, t, 1, 0);
    ChildShaped(l, t, 1, 1);
    var lo, hi := Bounds(l, r, k);
    SearchFindsIt(t, lo, hi, k);
    DescendOk(t, lo, hi, k);
    var child := t.children[i];
    InsertedLeaf(child.values, k, Bound(t.keys, lo, hi, i), Bound(t.keys, lo, hi, i + 1));
    LeafHas(child.values, k);
    var u := WithChild(t, i, Leaf(Without(child.values, k)));
    LeavesWithout(l, t, i, k);
    assert |Both(u, 0)| == |t.children[0].values| + |t.children[1].values| - 1;
  }

  /** After any insertions and erasures, in any order, the tree is balanced. */
  lemma {:induction false} BalancedAfterRun(l: Limits, changes: seq<Change>)
    requires l.Ok()
    ensures Balanced(l, Run(l, changes))
  {
    hide Valid, Balanced, TryInsert, Erase;
    if changes == [] {
      NothingToBalance(l);
    } else {
      var n := |changes| - 1;
      var r, c := Run(l, changes[..n]), changes[n];
      BalancedAfterRun(l, changes[..n]);
      InsertBalanced(l, r, c.key, HeightOf(r) + 1);
      EraseBalanced(l, r, c.key);
    }
  }

  lemma NothingToBalance(l: Limits)
    ensures Balanced(l, Empty)
  {}

  // ---- Values in order.

  /** All leaves but the first and the last are completely full. */
  function Full(l: Limits): Fill {
    Fill(l.leafMax, 0)
  }

  ghost predicate Packed(l: Limits, r: Root) {
    r.Root? && r.height > 1 ==> r.tree.Node? && Below(Full(l), r.tree.children, r.height - 1, true, true)
  }

  /** The key is above all values, or below all of them. */
  ghost predicate Beyond(t: Tree, k: Key, up: bool) {
    forall x :: Has(t, x) ==> if up then x < k else k < x
  }

  /** Such a key leads to the last leaf, or to the first. */
  lemma {:induction false} EdgePath(l: Limits, t: Tree, h: nat, lo: Key, hi: Key, k: Key, up: bool)
    requires h > 0 && t.Node? && Shaped(l, t, h) && Ordered(t, lo, hi) && Beyond(t, k, up)
    ensures LowerBound(t.keys, k) == if up then |t.keys| else 0
  {
    hide LowerBound, Bound;
    var n := |t.keys|;
    WellFormed(t, lo, hi);
    var i := if up then n else 0;
    ChildInBounds(t, i, lo, hi);
    ChildShaped(l, t, h, i);
    var x := AnyValue(l, t.children[i], h - 1, Bound(t.keys, lo, hi, i), Bound(t.keys, lo, hi, i + 1));
    assert Has(t, x);
    EdgeKeys(t, lo, hi);
  }

  lemma EdgeKeys(t: Tree, lo: Key, hi: Key)
    requires t.Node? && Ordered(t, lo, hi)
    ensures |t.keys| > 0 ==> Bound(t.keys, lo, hi, |t.keys|) == t.keys[|t.keys| - 1] && Bound(t.keys, lo, hi, 1) == t.keys[0]
    ensures Ascending(t.keys)
  {}

  lemma {:induction false} AnyValue(l: Limits, t: Tree, h: nat, lo: Key, hi: Key) returns (x: Key)
    requires Shaped(l, t, h) && Ordered(t, lo, hi)
    ensures Has(t, x) && lo < x <= hi
    decreases h
  {
    if h == 0 {
      x := t.values[0];
    } else {
      ChildInBounds(t, 0, lo, hi);
      x := AnyValue(l, t.children[0], h - 1, Bound(t.keys, lo, hi, 0), Bound(t.keys, lo, hi, 1));
    }
    Within(t, lo, hi, x);
  }

  lemma BeyondChild(t: Tree, k: Key, up: bool, i: nat)
    requires t.Node? && i < |t.children| && Beyond(t, k, up)
    ensures Beyond(t.children[i], k, up)
  {
    forall x | Has(t.children[i], x) ensures Has(t, x) {
    }
  }

  lemma {:induction false} BeyondHalves(t: Tree, k: Key, up: bool)
    requires t.Node? && |t.children| == |t.keys| + 1 >= 4 && Beyond(t, k, up)
    ensures Beyond(Split(t).left, k, up) && Beyond(Split(t).right, k, up)
  {
    hide Has, Split;
    forall x ensures Has(Split(t).left, x) || Has(Split(t).right, x) <==> Has(t, x) {
      SplitHas(t, x);
    }
  }

  lemma {:induction false} SplitLeafPacked(l: Limits, values: seq<Key>, k: Key, first: bool, last: bool)
    requires l.Ok() && |values| == l.leafMax && (first || last)
    ensures var s := SplitLeaf(values, k, first, last); Filled(Full(l), s.left, 0, first, false) && Filled(Full(l), s.right, 0, false, last)
  {
    hide LowerBound;
    InsertedSize(values, k);
  }

  lemma {:induction false} InsertLeafPacked(l: Limits, t: Tree, i: nat, k: Key, a: bool, b: bool)
    requires l.Ok() && t.Node? && i < |t.children| == |t.keys| + 1 && Below(Full(l), t.children, 1, a, b) && t.children[i].Leaf?
    requires (a && i == 0) || (b && i == |t.keys|)
    ensures var values := t.children[i].values;
            && Below(Full(l), WithChild(t, i, Leaf(InsertValue(values, k))).children, 1, a, b)
            && (|values| == l.leafMax ==> Below(Full(l), WithSplit(t, i, SplitLeaf(values, k, a && i == 0, b && i == |t.keys|)).children, 1, a, b))
  {
    hide LowerBound, Below, InsertValue, SplitLeaf;
    var values := t.children[i].values;
    WithChildBelow(Full(l), t, 1, i, Leaf(InsertValue(values, k)), a, b);
    if |values| == l.leafMax {
      SplitLeafPacked(l, values, k, a && i == 0, b && i == |t.keys|);
      WithSplitBelow(Full(l), t, 1, i, SplitLeaf(values, k, a && i == 0, b && i == |t.keys|), a, b);
    }
  }

  lemma {:induction false} InsertDownPacked(l: Limits, t: Tree, h: nat, k: Key, a: bool, b: bool, n: nat, lo: Key, hi: Key, up: bool)
    requires l.Ok() && h > 0 && t.Node? && Shaped(l, t, h) && |t.children| < l.childMax && Below(Full(l), t.children, h, a, b)
    requires Ordered(t, lo, hi) && Beyond(t, k, up) && if up then b else a
    ensures var r := InsertDown(l, t, h, k, a, b, n).tree; r.Node? && Below(Full(l), r.children, h, a, b)
    decreases h, 1
  {
    hide Filled, Shaped, Ordered, Beyond, LowerBound, Contains, InsertValue, SplitLeaf, Split, Below, Bound;
    var i := LowerBound(t.keys, k);
    EdgePath(l, t, h, lo, hi, k, up);
    ShapeOf(l, t, h);
    ChildShaped(l, t, h, i);
    var child, first, last := t.children[i], a && i == 0, b && i == |t.keys|;
    if h == 1 {
      InsertLeafPacked(l, t, i, k, a, b);
    } else if |child.children| < l.childMax {
      ChildFilled(Full(l), t.children, h, a, b, i);
      BeyondChild(t, k, up, i);
      ChildInBounds(t, i, lo, hi);
      InsertDownPacked(l, child, h - 1, k, first, last, n, Bound(t.keys, lo, hi, i), Bound(t.keys, lo, hi, i + 1), up);
      var c := InsertDown(l, child, h - 1, k, first, last, n).tree;
      NodeFilled(Full(l), c, h - 1, first, last);
      WithChildBelow(Full(l), t, h, i, c, a, b);
    } else if n > 0 {
      InsertSplitPacked(l, t, h, i, k, a, b, n - 1, lo, hi, up);
    }
  }

  lemma {:induction false} InsertSplitPacked(l: Limits, t: Tree, h: nat, i: nat, k: Key, a: bool, b: bool, n: nat, lo: Key, hi: Key, up: bool)
    requires l.Ok() && h > 1 && t.Node? && Shaped(l, t, h) && i < |t.children| < l.childMax && |t.children| == |t.keys| + 1 && Below(Full(l), t.children, h, a, b)
    requires t.children[i].Node? && |t.children[i].children| == l.childMax && Ordered(t, lo, hi) && Beyond(t, k, up)
    requires if up then b && i == |t.keys| else a && i == 0
    ensures var r := InsertSplit(l, t, h, i, k, a && i == 0, b && i == |t.keys|, n).tree; r.Node? && Below(Full(l), r.children, h, a, b)
    decreases h, 0
  {
    hide Filled, Shaped, Ordered, Beyond, LowerBound, Split, Below, Bound;
    var c, first, last, u, v := t.children[i], a && i == 0, b && i == |t.keys|, Bound(t.keys, lo, hi, i), Bound(t.keys, lo, hi, i + 1);
    ChildShaped(l, t, h, i);
    ChildFilled(Full(l), t.children, h, a, b, i);
    ChildInBounds(t, i, lo, hi);
    BeyondChild(t, k, up, i);
    EdgePath(l, c, h - 1, u, v, k, up);
    SplitOk(l, c, h - 1, u, v);
    HalvesPacked(l, c, h - 1, first, last);
    BeyondHalves(c, k, up);
    var s := Split(c);
    NodeFilled(Full(l), s.left, h - 1, first, false);
    NodeFilled(Full(l), s.right, h - 1, false, last);
    if up {
      InsertDownPacked(l, s.right, h - 1, k, false, last, n, s.key, v, up);
      var d := InsertDown(l, s.right, h - 1, k, false, last, n).tree;
      NodeFilled(Full(l), d, h - 1, false, last);
      WithSplitBelow(Full(l), t, h, i, s.(right := d), a, b);
    } else {
      InsertDownPacked(l, s.left, h - 1, k, first, false, n, u, s.key, up);
      var d := InsertDown(l, s.left, h - 1, k, first, false, n).tree;
      NodeFilled(Full(l), d, h - 1, first, false);
      WithSplitBelow(Full(l), t, h, i, s.(left := d), a, b);
    }
  }

  lemma {:induction false} HalvesPacked(l: Limits, t: Tree, h: nat, a: bool, b: bool)
    requires l.Ok() && h > 0 && Shaped(l, t, h) && t.Node? && |t.children| == l.childMax && |t.children| == |t.keys| + 1 && Below(Full(l), t.children, h, a, b)
    ensures var s := Split(t);
            && Shaped(l, s.left, h) && s.left.Node? && 0 < |s.left.children| < l.childMax && |s.left.children| <= |t.keys| && Below(Full(l), s.left.children, h, a, false)
            && Shaped(l, s.right, h) && s.right.Node? && |s.right.children| < l.childMax && Below(Full(l), s.right.children, h, false, b)
  {
    hide Filled, Below;
    HalvesShaped(l, t, h);
    Taken(Full(l), t.children, h, a, b, (|t.children| + 1) / 2);
  }

  /** A value above or below all others keeps all leaves full but the first and the last. */
  lemma {:induction false} InsertPacked(l: Limits, r: Root, k: Key, n: nat, up: bool)
    requires l.Ok() && Valid(l, r) && Packed(l, r) && (r.Root? ==> Beyond(r.tree, k, up) && n >= 2)
    ensures Packed(l, TryInsert(l, r, k, n).root)
  {
    hide Filled, Shaped, LowerBound, Contains, InsertValue, SplitLeaf, Split, Below, InsertDown, Ordered, Beyond;
    if r.Root? {
      ShapeOf(l, r.tree, r.height - 1);
      var lo, hi :| Ordered(r.tree, lo, hi);
      if r.height == 1 {
        if |r.tree.values| == l.leafMax {
          SplitLeafPacked(l, r.tree.values, k, true, true);
          var s := SplitLeaf(r.tree.values, k, true, true);
          TwoBelow(Full(l), s.left, s.right, 0, true, true);
        }
      } else if |r.tree.children| < l.childMax {
        InsertDownPacked(l, r.tree, r.height - 1, k, true, true, n, lo, hi, up);
      } else {
        InsertFullPacked(l, r, k, n, up, lo, hi);
      }
    }
  }

  lemma {:induction false} InsertFullPacked(l: Limits, r: Root, k: Key, n: nat, up: bool, lo: Key, hi: Key)
    requires l.Ok() && Valid(l, r) && Packed(l, r) && r.Root? && Beyond(r.tree, k, up) && Ordered(r.tree, lo, hi) && n >= 2
    requires r.height > 1 && r.tree.Node? && |r.tree.children| == l.childMax && |r.tree.children| == |r.tree.keys| + 1
    ensures Packed(l, TryInsert(l, r, k, n).root)
  {
    hide Filled, Shaped, LowerBound, Contains, InsertValue, SplitLeaf, Split, Below, InsertDown, Ordered, Has;
    var h, s := r.height - 1, Split(r.tree);
    HalvesPacked(l, r.tree, h, true, true);
    SplitOk(l, r.tree, h, lo, hi);
    GrownShaped(l, s, h);
    GrownOrdered(s, lo, hi);
    NodeFilled(Full(l), s.left, h, true, false);
    NodeFilled(Full(l), s.right, h, false, true);
    TwoBelow(Full(l), s.left, s.right, h, true, true);
    var t := Grown(s, r.height).tree;
    forall x ensures Has(t, x) <==> Has(r.tree, x) {
      GrownNodes(s, x);
      SplitHas(r.tree, x);
    }
    InsertDownPacked(l, t, r.height, k, true, true, n - 2, lo, hi, up);
  }

  /** Values in ascending or in descending order. */
  ghost predicate InOrder(changes: seq<Change>, up: bool) {
    && (forall i :: 0 <= i < |changes| ==> changes[i].Add?)
    && forall i, j :: 0 <= i < j < |changes| ==> if up then changes[i].key < changes[j].key else changes[j].key < changes[i].key
  }

  lemma {:induction false} RemainingKeys(changes: seq<Change>, x: Key)
    requires x in Remaining(changes)
    ensures exists i :: 0 <= i < |changes| && changes[i].key == x
  {
    if changes != [] {
      var n := |changes| - 1;
      if changes[n].key != x {
        RemainingKeys(changes[..n], x);
        var i :| 0 <= i < n && changes[..n][i].key == x;
        assert changes[i].key == x;
      }
    }
  }

  /** When values are inserted in ascending or in descending order, all leaves but the first and the last are completely full. */
  lemma {:induction false} PackedAfterRun(l: Limits, changes: seq<Change>, up: bool)
    requires l.Ok() && InOrder(changes, up)
    ensures Packed(l, Run(l, changes))
  {
    hide Shaped, Ordered, TryInsert, Erase, Has, Below;
    if changes != [] {
      var n := |changes| - 1;
      var r, k := Run(l, changes[..n]), changes[n].key;
      PackedAfterRun(l, changes[..n], up);
      forall x | Holds(r, x) ensures if up then x < k else k < x {
        HoldsAfterRun(l, changes[..n], x);
        RemainingKeys(changes[..n], x);
        var i :| 0 <= i < n && changes[..n][i].key == x;
        assert changes[i].key == x;
      }
      assert r.Root? ==> forall x :: Holds(r, x) <==> Has(r.tree, x);
      InsertPacked(l, r, k, HeightOf(r) + 1, up);
    }
  }

  // ---- The height.

  function Power(base: nat, e: nat): nat {
    if e == 0 then 1 else base * Power(base, e - 1)
  }

  function LeafCount(t: Tree): nat
    decreases t
  {
    match t
    case Leaf(_) => 1
    case Node(_, children) => LeafCountAll(children)
  }

  function LeafCountAll(s: seq<Tree>): nat
    decreases s
  {
    if s == [] then 0 else LeafCountAll(s[..|s| - 1]) + LeafCount(s[|s| - 1])
  }

  function ValueCount(t: Tree): nat
    decreases t
  {
    match t
    case Leaf(values) => |values|
    case Node(_, children) => ValueCountAll(children)
  }

  function ValueCountAll(s: seq<Tree>): nat
    decreases s
  {
    if s == [] then 0 else ValueCountAll(s[..|s| - 1]) + ValueCount(s[|s| - 1])
  }

  lemma {:induction false} ManyLeaves(f: Fill, t: Tree, h: nat, a: bool, b: bool)
    requires Filled(f, t, h, a, b)
    ensures LeafCount(t) >= Power(f.children, h)
    decreases h, 0
  {
    if h > 0 {
      LeavesInRow(f, t.children, h, a, b, |t.children|);
      assert t.children[..|t.children|] == t.children;
      MulMono(f.children, |t.children|, Power(f.children, h - 1));
    }
  }

  lemma {:induction false} LeavesInRow(f: Fill, c: seq<Tree>, h: nat, a: bool, b: bool, n: nat)
    requires Below(f, c, h, a, b) && n <= |c|
    ensures LeafCountAll(c[..n]) >= n * Power(f.children, h - 1)
    decreases h - 1, n + 1
  {
    hide Filled, Power;
    if n > 0 {
      LeavesInRow(f, c, h, a, b, n - 1);
      ChildFilled(f, c, h, a, b, n - 1);
      ManyLeaves(f, c[n - 1], h - 1, a && n == 1, b && n == |c|);
      assert c[..n][..n - 1] == c[..n - 1];
      MulStep(n - 1, Power(f.children, h - 1));
    }
  }

  lemma {:induction false} ManyValues(f: Fill, t: Tree, h: nat, a: bool, b: bool)
    requires Filled(f, t, h, a, b)
    ensures ValueCount(t) + (if a then f.leaf else 0) + (if b then f.leaf else 0) >= LeafCount(t) * f.leaf
    decreases h, 0
  {
    if h > 0 {
      ValuesInRow(f, t.children, h, a, b, |t.children|);
      assert t.children[..|t.children|] == t.children;
    }
  }

  lemma {:induction false} ValuesInRow(f: Fill, c: seq<Tree>, h: nat, a: bool, b: bool, n: nat)
    requires Below(f, c, h, a, b) && n <= |c|
    ensures ValueCountAll(c[..n]) + (if a then f.leaf else 0) + (if b && n == |c| then f.leaf else 0) >= LeafCountAll(c[..n]) * f.leaf
    decreases h - 1, n + 1
  {
    hide Filled;
    if n > 0 {
      ValuesInRow(f, c, h, a, b, n - 1);
      ChildFilled(f, c, h, a, b, n - 1);
      ManyValues(f, c[n - 1], h - 1, a && n == 1, b && n == |c|);
      assert c[..n][..n - 1] == c[..n - 1];
      MulDist(LeafCountAll(c[..n - 1]), LeafCount(c[n - 1]), f.leaf);
    }
  }

  /** The height of a balanced tree is logarithmic in the number of its values. */
  lemma {:induction false} HeightBound(l: Limits, r: Root)
    requires Valid(l, r) && Balanced(l, r) && r.Root? && r.height > 1
    ensures LeafCount(r.tree) >= 2 * Power(MinChildren(l), r.height - 2)
    ensures ValueCount(r.tree) + 2 * MinLeaf(l) >= LeafCount(r.tree) * MinLeaf(l)
  {
    hide Filled, Below, Ordered, Shaped, MinLeaf, Power;
    var c, h := r.tree.children, r.height - 1;
    ShapeOf(l, r.tree, h);
    LeavesInRow(Half(l), c, h, true, true, |c|);
    ValuesInRow(Half(l), c, h, true, true, |c|);
    assert c[..|c|] == c;
    MulMono(2, |c|, Power(MinChildren(l), h - 1));
  }

  // ---- The number of values.

  /** The values of a tree. */
  ghost function Members(t: Tree): set<Key>
    decreases t
  {
    match t
    case Leaf(values) => set x | x in values
    case Node(_, children) => MembersAll(children)
  }

  ghost function MembersAll(s: seq<Tree>): set<Key>
    decreases s
  {
    if s == [] then {} else MembersAll(s[..|s| - 1]) + Members(s[|s| - 1])
  }

  lemma {:induction false} MembersHas(t: Tree, x: Key)
    ensures x in Members(t) <==> Has(t, x)
    decreases t, 0
  {
    if t.Node? {
      MembersAllHas(t.children, x);
    }
  }

  lemma {:induction false} MembersAllHas(s: seq<Tree>, x: Key)
    ensures x in MembersAll(s) <==> exists i :: 0 <= i < |s| && Has(s[i], x)
    decreases s, 1
  {
    if s != [] {
      var n := |s| - 1;
      MembersAllHas(s[..n], x);
      MembersHas(s[n], x);
      assert forall i :: 0 <= i < n ==> s[..n][i] == s[i];
    }
  }

  lemma {:induction false} DistinctValues(values: seq<Key>)
    requires Ascending(values)
    ensures |(set x | x in values)| == |values|
  {
    if values != [] {
      var n := |values| - 1;
      DistinctValues(values[..n]);
      assert values == values[..n] + [values[n]];
      assert (set x | x in values) == (set x | x in values[..n]) + {values[n]};
      assert values[n] !in values[..n];
    }
  }

  lemma {:induction false} CountMembers(t: Tree, lo: Key, hi: Key)
    requires Ordered(t, lo, hi)
    ensures |Members(t)| == ValueCount(t)
    decreases t, 1, 0
  {
    match t
    case Leaf(values) => DistinctValues(values);
    case Node(keys, children) =>
      CountInRow(t, lo, hi, |children|);
      assert children[..|children|] == children;
  }

  lemma {:induction false} CountInRow(t: Tree, lo: Key, hi: Key, n: nat)
    requires t.Node? && Ordered(t, lo, hi) && n <= |t.children|
    ensures |MembersAll(t.children[..n])| == ValueCountAll(t.children[..n])
    ensures |t.children| == |t.keys| + 1 && forall x :: x in MembersAll(t.children[..n]) ==> x <= Bound(t.keys, lo, hi, n)
    decreases t, 0, n
  {
    hide Ordered, Has, Members, Bound;
    WellFormed(t, lo, hi);
    if n > 0 {
      var front, last, a, b := t.children[..n - 1], t.children[n - 1], Bound(t.keys, lo, hi, n - 1), Bound(t.keys, lo, hi, n);
      CountInRow(t, lo, hi, n - 1);
      ChildInBounds(t, n - 1, lo, hi);
      CountMembers(last, a, b);
      assert t.children[..n][..n - 1] == front;
      forall x | x in Members(last) ensures a < x && x <= b {
        MembersHas(last, x);
        Within(last, a, b, x);
      }
      if n > 1 {
        BoundsAscend(t, lo, hi, n);
      }
      assert MembersAll(front) !! Members(last);
    }
  }

  lemma BoundsAscend(t: Tree, lo: Key, hi: Key, n: nat)
    requires t.Node? && Ordered(t, lo, hi) && 1 < n <= |t.children|
    ensures Bound(t.keys, lo, hi, n - 1) <= Bound(t.keys, lo, hi, n)
  {
    assert (n > 1 ==> t.keys[n - 2] in t.keys) && (n <= |t.keys| ==> t.keys[n - 1] in t.keys);
  }

  /**
  After any insertions and erasures, the height is logarithmic in the number of values: with every further level the
  tree has at least half as many times more of them as a node can have children.
  */
  lemma {:induction false} HeightAfterRun(l: Limits, changes: seq<Change>)
    requires l.Ok()
    ensures var height := HeightOf(Run(l, changes));
            height > 1 ==> |Remaining(changes)| + 2 * MinLeaf(l) >= 2 * Power(MinChildren(l), height - 2) * MinLeaf(l)
  {
    hide Balanced, Power, Remaining, MinLeaf, MinChildren, Shaped, Ordered, Has, Members, ValueCount, LeafCount;
    var r := Run(l, changes);
    if HeightOf(r) > 1 {
      BalancedAfterRun(l, changes);
      HeightBound(l, r);
      MulMono(2 * Power(MinChildren(l), r.height - 2), LeafCount(r.tree), MinLeaf(l));
      var lo, hi :| Ordered(r.tree, lo, hi);
      CountMembers(r.tree, lo, hi);
      forall x ensures x in Members(r.tree) <==> x in Remaining(changes) {
        MembersHas(r.tree, x);
        HoldsAfterRun(l, changes, x);
      }
      assert Members(r.tree) == Remaining(changes);
    }
  }
}
