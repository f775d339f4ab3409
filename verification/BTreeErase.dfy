/**
Erasing from the B+ tree: the value goes from its leaf, and then, from the leaf's parent up, a node that has
become too small takes an entry from a neighbour or is merged with one.
*/
module BTreeErase {
  import opened BTree

  // ---- Two neighbours and the key between them.

  /** Children `j` and `j + 1` are replaced by those of `s`. */
  function Paired(t: Tree, j: nat, s: Tree): Tree
    requires t.Node? && j + 1 < |t.children| == |t.keys| + 1 && s.Node?
  {
    Node(t.keys[..j] + s.keys + t.keys[j + 1..], t.children[..j] + s.children + t.children[j + 2..])
  }

  lemma AscendingConcat(a: seq<Key>, b: seq<Key>)
    requires Ascending(a) && Ascending(b) && (a != [] && b != [] ==> a[|a| - 1] < b[0])
    ensures Ascending(a + b)
  {}

  lemma {:induction false} PairedAscending(keys: seq<Key>, j: nat, ks: seq<Key>, lo: Key, hi: Key)
    requires Ascending(keys) && j < |keys| && Ascending(ks)
    requires forall x :: x in ks ==> Bound(keys, lo, hi, j) < x < Bound(keys, lo, hi, j + 2)
    ensures Ascending(keys[..j] + ks + keys[j + 1..])
  {
    if ks == [] {
      assert keys[..j] + ks == keys[..j];
    } else {
      assert ks[0] in ks && ks[|ks| - 1] in ks;
    }
    AscendingConcat(keys[..j], ks);
    AscendingConcat(keys[..j] + ks, keys[j + 1..]);
  }

  lemma {:induction false} PairedInside(keys: seq<Key>, j: nat, ks: seq<Key>, lo: Key, hi: Key)
    requires (forall x :: x in keys ==> lo < x <= hi) && j < |keys|
    requires forall x :: x in ks ==> Bound(keys, lo, hi, j) < x < Bound(keys, lo, hi, j + 2)
    ensures var all := keys[..j] + ks + keys[j + 1..]; forall x :: x in all ==> lo < x <= hi
  {
    assert (j > 0 ==> keys[j - 1] in keys) && (j + 1 < |keys| ==> keys[j + 1] in keys);
    var all := keys[..j] + ks + keys[j + 1..];
    forall x | x in all ensures lo < x <= hi {
      assert x in keys || x in ks;
    }
  }

  lemma {:induction false} PairedChild(t: Tree, j: nat, s: Tree, lo: Key, hi: Key, i: nat)
    requires t.Node? && Ordered(t, lo, hi) && j + 1 < |t.children| && s.Node?
    requires Ordered(s, Bound(t.keys, lo, hi, j), Bound(t.keys, lo, hi, j + 2)) && i < |Paired(t, j, s).children|
    ensures ChildOrdered(Paired(t, j, s).keys, Paired(t, j, s).children, lo, hi, i)
  {
    var r, m := Paired(t, j, s), |s.children|;
    if i < j {
      assert ChildOrdered(t.keys, t.children, lo, hi, i);
    } else if i < j + m {
      assert ChildOrdered(s.keys, s.children, Bound(t.keys, lo, hi, j), Bound(t.keys, lo, hi, j + 2), i - j);
      assert r.children[i] == s.children[i - j];
    } else {
      assert ChildOrdered(t.keys, t.children, lo, hi, i - m + 2);
      assert r.children[i] == t.children[i - m + 2];
    }
  }

  lemma {:induction false} PairedOrdered(t: Tree, j: nat, s: Tree, lo: Key, hi: Key)
    requires t.Node? && Ordered(t, lo, hi) && j + 1 < |t.children| && s.Node?
    requires Ordered(s, Bound(t.keys, lo, hi, j), Bound(t.keys, lo, hi, j + 2))
    requires forall x :: x in s.keys ==> x < Bound(t.keys, lo, hi, j + 2)
    ensures Ordered(Paired(t, j, s), lo, hi)
  {
    hide ChildOrdered, Bound;
    PairedAscending(t.keys, j, s.keys, lo, hi);
    PairedInside(t.keys, j, s.keys, lo, hi);
    forall i | 0 <= i < |Paired(t, j, s).children| ensures ChildOrdered(Paired(t, j, s).keys, Paired(t, j, s).children, lo, hi, i) {
      PairedChild(t, j, s, lo, hi, i);
    }
  }

  lemma {:induction false} PairedHas(t: Tree, j: nat, s: Tree, x: Key)
    requires t.Node? && j + 1 < |t.children| == |t.keys| + 1 && s.Node?
    requires Has(s, x) <==> Has(t.children[j], x) || Has(t.children[j + 1], x)
    ensures Has(Paired(t, j, s), x) <==> Has(t, x)
  {
    var r, m := Paired(t, j, s), |s.children|;
    forall i | 0 <= i < |t.children| && Has(t.children[i], x) ensures Has(r, x) {
      if i < j {
        assert r.children[i] == t.children[i];
      } else if i > j + 1 {
        assert r.children[i + m - 2] == t.children[i];
      } else {
        var p :| 0 <= p < m && Has(s.children[p], x);
        assert r.children[j + p] == s.children[p];
      }
    }
    forall i | 0 <= i < |r.children| && Has(r.children[i], x) ensures Has(t, x) {
      if i < j {
        assert r.children[i] == t.children[i];
      } else if i < j + m {
        assert r.children[i] == s.children[i - j];
      } else {
        assert r.children[i] == t.children[i - m + 2];
      }
    }
  }

  lemma {:induction false} PairedNodes(t: Tree, j: nat, s: Tree)
    requires t.Node? && j + 1 < |t.children| == |t.keys| + 1 && s.Node?
    ensures Nodes(Paired(t, j, s)) + Nodes(t.children[j]) + Nodes(t.children[j + 1]) + 1 == Nodes(t) + Nodes(s)
  {
    PairNodes(t.children, j, s.children);
  }

  lemma {:induction false} PairNodes(c: seq<Tree>, j: nat, s: seq<Tree>)
    requires j + 1 < |c|
    ensures NodesAll(c[..j] + s + c[j + 2..]) + Nodes(c[j]) + Nodes(c[j + 1]) == NodesAll(c) + NodesAll(s)
  {
    hide Nodes;
    var a, b := c[..j], c[j + 2..];
    NodesConcat(a + s, b);
    NodesConcat(a, s);
    NodesConcat(a + [c[j]] + [c[j + 1]], b);
    NodesConcat(a + [c[j]], [c[j + 1]]);
    NodesConcat(a, [c[j]]);
    assert c == a + [c[j]] + [c[j + 1]] + b && [c[j]][..0] == [] && [c[j + 1]][..0] == [];
  }

  // ---- Leaves.

  function MinLeaf(l: Limits): nat {
    l.leafMax / 2
  }

  function MinChildren(l: Limits): nat {
    l.childMax / 2
  }

  predicate OverLeaves(t: Tree) {
    t.Node? && |t.children| == |t.keys| + 1 && |t.children| >= 2 && forall c :: c in t.children ==> c.Leaf?
  }

  /** The values of two neighbours. */
  function Both(t: Tree, j: nat): seq<Key>
    requires OverLeaves(t) && j + 1 < |t.children|
  {
    t.children[j].values + t.children[j + 1].values
  }

  /** Merges two leaves. With an empty leaf, this removes it. */
  function JoinLeaves(t: Tree, j: nat): Tree
    requires OverLeaves(t) && j + 1 < |t.children|
  {
    Paired(t, j, Node([], [Leaf(Both(t, j))]))
  }

  /** Moves values between two leaves until the left one has `m`. */
  function RecutLeaves(t: Tree, j: nat, m: nat): Tree
    requires OverLeaves(t) && j + 1 < |t.children| && 0 < m < |Both(t, j)|
  {
    var all := Both(t, j);
    Paired(t, j, Node([all[m - 1]], [Leaf(all[..m]), Leaf(all[m..])]))
  }

  /** Merges a leaf with its right neighbour; a key behind the merged leaf becomes its largest value. */
  function MergeRight(t: Tree, i: nat): Tree
    requires OverLeaves(t) && i + 1 < |t.children| && |Both(t, i)| > 0
  {
    var r := JoinLeaves(t, i);
    if i + 2 == |t.children| then r else Node(r.keys[i := Both(t, i)[|Both(t, i)| - 1]], r.children)
  }

  /** Whether a leaf has a value to spare; the first and the last leaf may become smaller than the others. */
  predicate Gives(l: Limits, t: Tree, j: nat, edge: bool)
    requires OverLeaves(t) && j < |t.children|
  {
    |t.children[j].values| > MinLeaf(l) || (edge && |t.children[j].values| > 1)
  }

  /** Repairs leaf `i`, which has lost a value. */
  function FixLeaf(l: Limits, t: Tree, i: nat, leftmost: bool, rightmost: bool): Tree
    requires OverLeaves(t) && i < |t.children| && forall j :: 0 <= j < |t.children| && j != i ==> |t.children[j].values| > 0
  {
    var n, size := |t.children|, |t.children[i].values|;
    if (leftmost && i == 0) || (rightmost && i + 1 == n) then
      if size == 0 then JoinLeaves(t, if i == 0 then 0 else i - 1)
      else if leftmost && rightmost && n == 2 && |Both(t, 0)| <= l.leafMax then JoinLeaves(t, 0)
      else t
    else if size >= MinLeaf(l) then t
    else if i + 1 < n && Gives(l, t, i + 1, rightmost && i + 2 == n) then RecutLeaves(t, i, size + 1)
    else if i > 0 && Gives(l, t, i - 1, leftmost && i == 1) then RecutLeaves(t, i - 1, |t.children[i - 1].values| - 1)
    else if i + 1 < n then MergeRight(t, i)
    else JoinLeaves(t, i - 1)
  }

  lemma ChildInBounds(t: Tree, j: nat, lo: Key, hi: Key)
    requires t.Node? && Ordered(t, lo, hi) && j < |t.children|
    ensures Ordered(t.children[j], Bound(t.keys, lo, hi, j), Bound(t.keys, lo, hi, j + 1))
  {
    assert ChildOrdered(t.keys, t.children, lo, hi, j);
  }

  lemma {:induction false} BothOrdered(t: Tree, j: nat, lo: Key, hi: Key)
    requires OverLeaves(t) && Ordered(t, lo, hi) && j + 1 < |t.children|
    ensures Ordered(Leaf(Both(t, j)), Bound(t.keys, lo, hi, j), Bound(t.keys, lo, hi, j + 2))
  {
    var u, v, a, b := t.children[j].values, t.children[j + 1].values, Bound(t.keys, lo, hi, j), Bound(t.keys, lo, hi, j + 2);
    ChildInBounds(t, j, lo, hi);
    ChildInBounds(t, j + 1, lo, hi);
    assert t.children[j] == Leaf(u) && t.children[j + 1] == Leaf(v);
    assert (j > 0 ==> t.keys[j - 1] in t.keys) && t.keys[j] in t.keys && (j + 1 < |t.keys| ==> t.keys[j + 1] in t.keys);
    assert (u != [] ==> u[|u| - 1] in u) && (v != [] ==> v[0] in v);
    AscendingConcat(u, v);
    forall x | x in u + v ensures a < x <= b {
      assert x in u || x in v;
    }
  }

  lemma {:induction false} BothHas(t: Tree, j: nat, x: Key)
    requires OverLeaves(t) && j + 1 < |t.children|
    ensures Has(Leaf(Both(t, j)), x) <==> Has(t.children[j], x) || Has(t.children[j + 1], x)
    ensures Nodes(t.children[j]) == Nodes(t.children[j + 1]) == 1
  {
    assert t.children[j] in t.children && t.children[j + 1] in t.children;
  }

  /** A repair that keeps bounds and values, and takes no node. */
  ghost predicate Same(t: Tree, lo: Key, hi: Key, r: Tree) {
    Ordered(r, lo, hi) && Nodes(r) <= Nodes(t) && forall x :: Has(r, x) <==> Has(t, x)
  }

  lemma OneChild(c: Tree, lo: Key, hi: Key, x: Key)
    requires Ordered(c, lo, hi)
    ensures Ordered(Node([], [c]), lo, hi) && Nodes(Node([], [c])) == 1 + Nodes(c) && (Has(Node([], [c]), x) <==> Has(c, x))
  {
    assert ChildOrdered([], [c], lo, hi, 0);
    assert [c][..0] == [] && NodesAll([c]) == Nodes(c);
    assert Node([], [c]).children[0] == c;
  }

  lemma {:induction false} LeavesJoined(t: Tree, j: nat, lo: Key, hi: Key)
    requires OverLeaves(t) && Ordered(t, lo, hi) && j + 1 < |t.children|
    ensures Same(t, lo, hi, JoinLeaves(t, j))
  {
    hide Ordered, Has, Nodes, Both, Bound, Paired;
    var c, a, b := Leaf(Both(t, j)), Bound(t.keys, lo, hi, j), Bound(t.keys, lo, hi, j + 2);
    WellFormed(t, lo, hi);
    BothOrdered(t, j, lo, hi);
    OneChild(c, a, b, 0.0);
    PairedOrdered(t, j, Node([], [c]), lo, hi);
    PairedNodes(t, j, Node([], [c]));
    BothHas(t, j, 0.0);
    LeafNodes(c);
    forall x ensures Has(JoinLeaves(t, j), x) <==> Has(t, x) {
      OneChild(c, a, b, x);
      BothHas(t, j, x);
      PairedHas(t, j, Node([], [c]), x);
    }
  }

  lemma LeafNodes(t: Tree)
    requires t.Leaf?
    ensures Nodes(t) == 1
  {}

  lemma WellFormed(t: Tree, lo: Key, hi: Key)
    requires Ordered(t, lo, hi) && t.Node?
    ensures |t.children| == |t.keys| + 1
  {}

  lemma {:induction false} LeavesRecut(t: Tree, j: nat, m: nat, lo: Key, hi: Key)
    requires OverLeaves(t) && Ordered(t, lo, hi) && j + 1 < |t.children| && 0 < m < |Both(t, j)|
    ensures Same(t, lo, hi, RecutLeaves(t, j, m))
  {
    hide Ordered, Has, Nodes, Both, Bound, Paired;
    var all, a, b := Both(t, j), Bound(t.keys, lo, hi, j), Bound(t.keys, lo, hi, j + 2);
    var s := Halves(Leaf(all[..m]), all[m - 1], Leaf(all[m..]));
    BothOrdered(t, j, lo, hi);
    CutLeaf(all, m, a, b);
    GrownOrdered(s, a, b);
    var p := Node([s.key], [s.left, s.right]);
    PairedOrdered(t, j, p, lo, hi);
    PairedNodes(t, j, p);
    BothHas(t, j, 0.0);
    GrownNodes(s, 0.0);
    LeafNodes(s.left);
    LeafNodes(s.right);
    forall x ensures Has(RecutLeaves(t, j, m), x) <==> Has(t, x) {
      GrownNodes(s, x);
      BothHas(t, j, x);
      LeafHas(all, x);
      LeafHas(all[..m], x);
      LeafHas(all[m..], x);
      PairedHas(t, j, p, x);
    }
  }

  lemma LeafHas(values: seq<Key>, x: Key)
    ensures Has(Leaf(values), x) <==> x in values
  {}

  /** A key may be lowered to a bound of the child before it. */
  lemma {:induction false} LowerKey(t: Tree, i: nat, k: Key, lo: Key, hi: Key)
    requires t.Node? && Ordered(t, lo, hi) && i < |t.keys| && Bound(t.keys, lo, hi, i) < k <= t.keys[i]
    requires Ordered(t.children[i], Bound(t.keys, lo, hi, i), k)
    ensures Same(t, lo, hi, Node(t.keys[i := k], t.children))
  {
    var keys := t.keys[i := k];
    assert (i > 0 ==> t.keys[i - 1] in t.keys) && t.keys[i] in t.keys;
    forall j | 0 <= j < |t.children| ensures ChildOrdered(keys, t.children, lo, hi, j) {
      assert ChildOrdered(t.keys, t.children, lo, hi, j);
      if j == i + 1 {
        Wider(t.children[j], t.keys[i], Bound(t.keys, lo, hi, j + 1), k, Bound(t.keys, lo, hi, j + 1));
      }
    }
    forall x | x in keys ensures x in t.keys || x == k {
    }
    assert Ascending(keys);
    assert Ordered(Node(keys, t.children), lo, hi);
  }

  lemma {:induction false} MergedRight(t: Tree, i: nat, lo: Key, hi: Key)
    requires OverLeaves(t) && Ordered(t, lo, hi) && i + 1 < |t.children| && |Both(t, i)| > 0
    ensures Same(t, lo, hi, MergeRight(t, i))
  {
    hide Ordered, Has, Nodes, Both;
    var r, all := JoinLeaves(t, i), Both(t, i);
    LeavesJoined(t, i, lo, hi);
    BothOrdered(t, i, lo, hi);
    if i + 2 < |t.children| {
      assert r.children[i] == Leaf(all);
      assert Bound(r.keys, lo, hi, i) == Bound(t.keys, lo, hi, i) && r.keys[i] == t.keys[i + 1];
      UpToLast(all, Bound(t.keys, lo, hi, i), Bound(t.keys, lo, hi, i + 2));
      LowerKey(r, i, all[|all| - 1], lo, hi);
    }
  }

  lemma UpToLast(values: seq<Key>, lo: Key, hi: Key)
    requires Ordered(Leaf(values), lo, hi) && |values| > 0
    ensures lo < values[|values| - 1] <= hi && Ordered(Leaf(values), lo, values[|values| - 1])
  {
    assert values[|values| - 1] in values;
  }

  /** An internal node that may have a single child. */
  ghost predicate Thin(l: Limits, t: Tree, h: nat) {
    && h > 0 && t.Node? && |t.children| == |t.keys| + 1 && 1 <= |t.children| <= l.childMax
    && forall c :: c in t.children ==> Shaped(l, c, h - 1)
  }

  /** Leaves within their limits, except that leaf `i` may be empty. */
  ghost predicate Leaves(l: Limits, t: Tree, i: nat) {
    && OverLeaves(t) && i < |t.children| <= l.childMax
    && forall j :: 0 <= j < |t.children| ==> (j == i || |t.children[j].values| > 0) && |t.children[j].values| <= l.leafMax
  }

  lemma {:induction false} PairedShape(l: Limits, t: Tree, i: nat, j: nat, s: Tree)
    requires Leaves(l, t, i) && j <= i <= j + 1 < |t.children| && s.Node? && 1 <= |s.children| == |s.keys| + 1 <= 2
    requires forall c :: c in s.children ==> c.Leaf? && 0 < |c.values| <= l.leafMax
    ensures Thin(l, Paired(t, j, s), 1) && |Paired(t, j, s).children| == |t.children| - 2 + |s.children|
  {
    var r := Paired(t, j, s);
    forall c | c in r.children ensures Shaped(l, c, 0) {
      var p :| 0 <= p < |r.children| && r.children[p] == c;
      if p < j {
        assert c == t.children[p];
      } else if p < j + |s.children| {
        assert c == s.children[p - j];
      } else {
        assert c == t.children[p - |s.children| + 2];
      }
    }
  }

  lemma {:induction false} StillThin(l: Limits, t: Tree, i: nat)
    requires Leaves(l, t, i) && |t.children[i].values| > 0
    ensures Thin(l, t, 1)
  {
    forall c | c in t.children ensures Shaped(l, c, 0) {
      var p :| 0 <= p < |t.children| && t.children[p] == c;
    }
  }

  lemma {:induction false} FixLeafShape(l: Limits, t: Tree, i: nat, leftmost: bool, rightmost: bool)
    requires l.Ok() && Leaves(l, t, i)
    ensures var r := FixLeaf(l, t, i, leftmost, rightmost); Thin(l, r, 1) && |t.children| - 1 <= |r.children| <= |t.children|
  {
    hide Shaped, Thin, JoinLeaves, RecutLeaves, MergeRight;
    if |t.children[i].values| > 0 {
      StillThin(l, t, i);
    }
    if i > 0 {
      JoinedShape(l, t, i, i - 1);
      RecutLeafShape(l, t, i, i - 1, |t.children[i - 1].values| - 1);
    }
    if i + 1 < |t.children| {
      JoinedShape(l, t, i, i);
      JoinedRightShape(l, t, i);
      RecutLeafShape(l, t, i, i, |t.children[i].values| + 1);
    }
  }

  lemma {:induction false} JoinedShape(l: Limits, t: Tree, i: nat, j: nat)
    requires Leaves(l, t, i) && j <= i <= j + 1 < |t.children|
    ensures 0 < |Both(t, j)| <= l.leafMax ==> Thin(l, JoinLeaves(t, j), 1) && |JoinLeaves(t, j).children| == |t.children| - 1
  {
    hide Shaped, Paired, Thin;
    if 0 < |Both(t, j)| <= l.leafMax {
      PairedShape(l, t, i, j, Node([], [Leaf(Both(t, j))]));
    }
  }

  lemma {:induction false} RecutLeafShape(l: Limits, t: Tree, i: nat, j: nat, m: int)
    requires Leaves(l, t, i) && j <= i <= j + 1 < |t.children|
    ensures 0 < m < |Both(t, j)| && m <= l.leafMax && |Both(t, j)| - m <= l.leafMax ==>
              Thin(l, RecutLeaves(t, j, m), 1) && |RecutLeaves(t, j, m).children| == |t.children|
  {
    hide Shaped, Paired, Thin;
    var all := Both(t, j);
    if 0 < m < |all| && m <= l.leafMax && |all| - m <= l.leafMax {
      PairedShape(l, t, i, j, Node([all[m - 1]], [Leaf(all[..m]), Leaf(all[m..])]));
    }
  }

  lemma {:induction false} JoinedRightShape(l: Limits, t: Tree, i: nat)
    requires l.Ok() && Leaves(l, t, i) && i + 1 < |t.children|
    ensures 0 < |Both(t, i)| <= l.leafMax ==>
              && Thin(l, JoinLeaves(t, i), 1) && |JoinLeaves(t, i).children| == |t.children| - 1
              && Thin(l, MergeRight(t, i), 1) && |MergeRight(t, i).children| == |t.children| - 1
  {
    hide Shaped, Paired;
    if 0 < |Both(t, i)| <= l.leafMax {
      PairedShape(l, t, i, i, Node([], [Leaf(Both(t, i))]));
    }
  }

  /** Repairing a leaf keeps the values. */
  lemma {:induction false} FixLeafOk(l: Limits, t: Tree, i: nat, leftmost: bool, rightmost: bool, lo: Key, hi: Key)
    requires l.Ok() && Leaves(l, t, i) && Ordered(t, lo, hi)
    ensures Same(t, lo, hi, FixLeaf(l, t, i, leftmost, rightmost))
  {
    hide Ordered, Has, Nodes, JoinLeaves, RecutLeaves, MergeRight;
    var n, size := |t.children|, |t.children[i].values|;
    if i > 0 {
      LeavesJoined(t, i - 1, lo, hi);
      var m := |t.children[i - 1].values| - 1;
      if 0 < m {
        LeavesRecut(t, i - 1, m, lo, hi);
      }
    }
    if i + 1 < n {
      LeavesJoined(t, i, lo, hi);
      MergedRight(t, i, lo, hi);
      if 0 < size + 1 < |Both(t, i)| {
        LeavesRecut(t, i, size + 1, lo, hi);
      }
    }
  }

  // ---- Internal nodes.

  predicate OverNodes(t: Tree) {
    && t.Node? && |t.children| == |t.keys| + 1 && |t.children| >= 2
    && forall c :: c in t.children ==> c.Node? && |c.children| == |c.keys| + 1
  }

  /** Two neighbours as one node. */
  function Joined(t: Tree, j: nat): (r: Tree)
    requires OverNodes(t) && j + 1 < |t.children|
    ensures r.Node? && |r.children| == |r.keys| + 1 == |t.children[j].children| + |t.children[j + 1].children|
  {
    var u, v := t.children[j], t.children[j + 1];
    assert u in t.children && v in t.children;
    Node(u.keys + [t.keys[j]] + v.keys, u.children + v.children)
  }

  function JoinNodes(t: Tree, j: nat): Tree
    requires OverNodes(t) && j + 1 < |t.children|
  {
    Paired(t, j, Node([], [Joined(t, j)]))
  }

  /** Moves children between two nodes until the left one has `m`. */
  function RecutNodes(t: Tree, j: nat, m: nat): Tree
    requires OverNodes(t) && j + 1 < |t.children| && 0 < m < |t.children[j].children| + |t.children[j + 1].children|
  {
    var s := CutAt(Joined(t, j), m);
    Paired(t, j, Node([s.key], [s.left, s.right]))
  }

  /** Repairs node `i`, which has lost a child. */
  function FixNode(l: Limits, t: Tree, i: nat): Tree
    requires OverNodes(t) && i < |t.children|
  {
    var n, size := |t.children|, |t.children[i].children|;
    if size >= MinChildren(l) then t
    else if i + 1 < n && |t.children[i + 1].children| > MinChildren(l) then RecutNodes(t, i, size + 1)
    else if i > 0 && |t.children[i - 1].children| > MinChildren(l) then RecutNodes(t, i - 1, |t.children[i - 1].children| - 1)
    else if i > 0 then JoinNodes(t, i - 1)
    else JoinNodes(t, i)
  }

  /** Children that are nodes of the same height, of which node `i` may have a single child. */
  ghost predicate Nested(l: Limits, t: Tree, h: nat, i: nat) {
    && h > 1 && OverNodes(t) && i < |t.children| <= l.childMax && Thin(l, t.children[i], h - 1)
    && forall j :: 0 <= j < |t.children| && j != i ==> Shaped(l, t.children[j], h - 1)
  }

  lemma ShapedIsThin(l: Limits, t: Tree, h: nat)
    requires h > 0 && Shaped(l, t, h)
    ensures Thin(l, t, h) && |t.children| >= 2
  {}

  lemma ThinIsShaped(l: Limits, t: Tree, h: nat)
    requires Thin(l, t, h) && |t.children| >= 2
    ensures Shaped(l, t, h)
  {
    forall i | 0 <= i < |t.children| ensures Shaped(l, t.children[i], h - 1) {
      assert t.children[i] in t.children;
    }
  }

  lemma NestedThin(l: Limits, t: Tree, h: nat, i: nat, j: nat)
    requires Nested(l, t, h, i) && j < |t.children|
    ensures Thin(l, t.children[j], h - 1)
  {
    if j != i {
      ShapedIsThin(l, t.children[j], h - 1);
    }
  }

  lemma {:induction false} KeysBelow(l: Limits, t: Tree, h: nat, lo: Key, hi: Key)
    requires Thin(l, t, h) && Ordered(t, lo, hi)
    ensures lo < hi && forall x :: x in t.keys ==> x < hi
  {
    hide Shaped;
    var n := |t.keys|;
    ChildInBounds(t, n, lo, hi);
    assert t.children[n] in t.children;
    Inhabited(l, t.children[n], h - 1, Bound(t.keys, lo, hi, n), hi);
    assert n > 0 ==> t.keys[n - 1] in t.keys;
    forall x | x in t.keys ensures x < hi {
      var p :| 0 <= p < n && t.keys[p] == x;
    }
  }

  lemma {:induction false} JoinedKeys(u: Tree, k: Key, v: Tree, lo: Key, hi: Key)
    requires u.Node? && v.Node? && Ordered(u, lo, k) && Ordered(v, k, hi) && lo < k < hi && forall x :: x in u.keys ==> x < k
    ensures var keys := u.keys + [k] + v.keys; Ascending(keys) && forall x :: x in keys ==> lo < x <= hi
  {
    hide ChildOrdered;
    assert (u.keys != [] ==> u.keys[|u.keys| - 1] in u.keys) && (v.keys != [] ==> v.keys[0] in v.keys);
    AscendingConcat(u.keys, [k]);
    AscendingConcat(u.keys + [k], v.keys);
    var keys := u.keys + [k] + v.keys;
    forall x | x in keys ensures lo < x <= hi {
      assert x in u.keys || x == k || x in v.keys;
    }
  }

  lemma {:induction false} JoinedOrdered(u: Tree, k: Key, v: Tree, lo: Key, hi: Key)
    requires u.Node? && v.Node? && Ordered(u, lo, k) && Ordered(v, k, hi) && lo < k < hi && forall x :: x in u.keys ==> x < k
    ensures Ordered(Node(u.keys + [k] + v.keys, u.children + v.children), lo, hi)
  {
    var r, m := Node(u.keys + [k] + v.keys, u.children + v.children), |u.children|;
    JoinedKeys(u, k, v, lo, hi);
    forall i | 0 <= i < |r.children| ensures ChildOrdered(r.keys, r.children, lo, hi, i) {
      if i < m {
        assert ChildOrdered(u.keys, u.children, lo, k, i);
      } else {
        assert ChildOrdered(v.keys, v.children, k, hi, i - m);
        assert r.children[i] == v.children[i - m];
      }
    }
  }

  lemma {:induction false} JoinedHas(u: Tree, keys: seq<Key>, v: Tree, x: Key)
    requires u.Node? && v.Node?
    ensures Has(Node(keys, u.children + v.children), x) <==> Has(u, x) || Has(v, x)
    ensures Nodes(Node(keys, u.children + v.children)) + 1 == Nodes(u) + Nodes(v)
  {
    NodesConcat(u.children, v.children);
    var r, m := Node(keys, u.children + v.children), |u.children|;
    forall i | 0 <= i < m ensures r.children[i] == u.children[i] {
    }
    forall i | 0 <= i < |v.children| ensures r.children[m + i] == v.children[i] {
    }
    forall i | m <= i < |r.children| ensures r.children[i] == v.children[i - m] {
    }
  }

  /** Two neighbours as one node, between the bounds of both. */
  lemma {:induction false} JoinedOk(l: Limits, t: Tree, h: nat, i: nat, j: nat, lo: Key, hi: Key)
    requires Nested(l, t, h, i) && Ordered(t, lo, hi) && j + 1 < |t.children|
    ensures Ordered(Joined(t, j), Bound(t.keys, lo, hi, j), Bound(t.keys, lo, hi, j + 2))
    ensures Nodes(Joined(t, j)) + 1 == Nodes(t.children[j]) + Nodes(t.children[j + 1])
    ensures forall x :: Has(Joined(t, j), x) <==> Has(t.children[j], x) || Has(t.children[j + 1], x)
    ensures forall c :: c in Joined(t, j).children ==> Shaped(l, c, h - 2)
  {
    hide Ordered, Has, Nodes, Shaped;
    var u, k, v := t.children[j], t.keys[j], t.children[j + 1];
    NestedThin(l, t, h, i, j);
    NestedThin(l, t, h, i, j + 1);
    ChildInBounds(t, j, lo, hi);
    ChildInBounds(t, j + 1, lo, hi);
    KeysBelow(l, u, h - 1, Bound(t.keys, lo, hi, j), k);
    KeysBelow(l, v, h - 1, k, Bound(t.keys, lo, hi, j + 2));
    JoinedOrdered(u, k, v, Bound(t.keys, lo, hi, j), Bound(t.keys, lo, hi, j + 2));
    JoinedHas(u, Joined(t, j).keys, v, 0.0);
    forall x ensures Has(Joined(t, j), x) <==> Has(u, x) || Has(v, x) {
      JoinedHas(u, Joined(t, j).keys, v, x);
    }
    forall c | c in Joined(t, j).children ensures Shaped(l, c, h - 2) {
      assert c in u.children || c in v.children;
    }
  }

  lemma {:induction false} NodesJoined(l: Limits, t: Tree, h: nat, i: nat, j: nat, lo: Key, hi: Key)
    requires Nested(l, t, h, i) && Ordered(t, lo, hi) && j + 1 < |t.children|
    ensures Same(t, lo, hi, JoinNodes(t, j))
  {
    hide Ordered, Has, Nodes, Shaped, Bound, Paired, Joined, Thin;
    var c, a, b := Joined(t, j), Bound(t.keys, lo, hi, j), Bound(t.keys, lo, hi, j + 2);
    JoinedOk(l, t, h, i, j, lo, hi);
    OneChild(c, a, b, 0.0);
    PairedOrdered(t, j, Node([], [c]), lo, hi);
    PairedNodes(t, j, Node([], [c]));
    forall x ensures Has(JoinNodes(t, j), x) <==> Has(t, x) {
      OneChild(c, a, b, x);
      PairedHas(t, j, Node([], [c]), x);
    }
  }

  /** Both parts of a node that is cut, as two children. */
  lemma {:induction false} CutOk(l: Limits, t: Tree, h: nat, m: nat, lo: Key, hi: Key)
    requires h > 0 && t.Node? && Ordered(t, lo, hi) && 0 < m < |t.children| && forall c :: c in t.children ==> Shaped(l, c, h - 1)
    ensures var s := CutAt(t, m); Ordered(Node([s.key], [s.left, s.right]), lo, hi) && s.key < hi
    ensures var s := CutAt(t, m); (forall c :: c in s.left.children ==> Shaped(l, c, h - 1)) && (forall c :: c in s.right.children ==> Shaped(l, c, h - 1))
  {
    hide Ordered, Shaped;
    WellFormed(t, lo, hi);
    var s := CutAt(t, m);
    CutLeft(t, m, lo, hi);
    CutRight(t, m, lo, hi);
    GrownOrdered(s, lo, hi);
    forall c | c in s.left.children || c in s.right.children ensures c in t.children {
    }
    ChildInBounds(s.right, |s.right.keys|, s.key, hi);
    var c := s.right.children[|s.right.keys|];
    assert c in s.right.children;
    KeyIn(s.right, s.key, hi);
    Inhabited(l, c, h - 1, Bound(s.right.keys, s.key, hi, |s.right.keys|), hi);
  }

  lemma KeyIn(t: Tree, lo: Key, hi: Key)
    requires t.Node? && Ordered(t, lo, hi)
    ensures lo <= Bound(t.keys, lo, hi, |t.keys|)
  {
    assert |t.keys| > 0 ==> t.keys[|t.keys| - 1] in t.keys;
  }

  lemma {:induction false} NodesRecut(l: Limits, t: Tree, h: nat, i: nat, j: nat, m: nat, lo: Key, hi: Key)
    requires Nested(l, t, h, i) && Ordered(t, lo, hi) && j + 1 < |t.children| && 0 < m < |t.children[j].children| + |t.children[j + 1].children|
    ensures Same(t, lo, hi, RecutNodes(t, j, m))
  {
    hide Ordered, Has, Nodes, Shaped, Bound, Paired, Joined, CutAt, Thin;
    var c, a, b := Joined(t, j), Bound(t.keys, lo, hi, j), Bound(t.keys, lo, hi, j + 2);
    var s := CutAt(c, m);
    var p := Node([s.key], [s.left, s.right]);
    JoinedOk(l, t, h, i, j, lo, hi);
    CutOk(l, c, h - 1, m, a, b);
    PairedOrdered(t, j, p, lo, hi);
    PairedNodes(t, j, p);
    CutNodes(c, m);
    GrownNodes(s, 0.0);
    forall x ensures Has(RecutNodes(t, j, m), x) <==> Has(t, x) {
      GrownNodes(s, x);
      CutHas(c, m, x);
      PairedHas(t, j, p, x);
    }
  }

  lemma {:induction false} PairedNested(l: Limits, t: Tree, h: nat, i: nat, j: nat, s: Tree)
    requires Nested(l, t, h, i) && j <= i <= j + 1 < |t.children| && s.Node? && 1 <= |s.children| == |s.keys| + 1 <= 2
    requires forall c :: c in s.children ==> Shaped(l, c, h - 1)
    ensures Thin(l, Paired(t, j, s), h) && |Paired(t, j, s).children| == |t.children| - 2 + |s.children|
  {
    hide Shaped;
    var r := Paired(t, j, s);
    forall c | c in r.children ensures Shaped(l, c, h - 1) {
      var p :| 0 <= p < |r.children| && r.children[p] == c;
      if p < j {
        assert c == t.children[p];
      } else if p < j + |s.children| {
        assert c == s.children[p - j];
      } else {
        assert c == t.children[p - |s.children| + 2];
      }
    }
  }

  lemma {:induction false} NestedIsThin(l: Limits, t: Tree, h: nat, i: nat)
    requires Nested(l, t, h, i) && |t.children[i].children| >= 2
    ensures Thin(l, t, h)
  {
    hide Shaped;
    ThinIsShaped(l, t.children[i], h - 1);
    forall c | c in t.children ensures Shaped(l, c, h - 1) {
      var p :| 0 <= p < |t.children| && t.children[p] == c;
    }
  }

  lemma {:induction false} JoinShape(l: Limits, t: Tree, h: nat, i: nat, j: nat)
    requires Nested(l, t, h, i) && j <= i <= j + 1 < |t.children| && |t.children[j].children| + |t.children[j + 1].children| <= l.childMax
    ensures Thin(l, JoinNodes(t, j), h) && |JoinNodes(t, j).children| == |t.children| - 1
  {
    hide Shaped, Paired;
    var r := Joined(t, j);
    NestedThin(l, t, h, i, j);
    NestedThin(l, t, h, i, j + 1);
    forall c | c in r.children ensures Shaped(l, c, h - 2) {
      assert c in t.children[j].children || c in t.children[j + 1].children;
    }
    ThinIsShaped(l, r, h - 1);
    PairedNested(l, t, h, i, j, Node([], [r]));
  }

  lemma {:induction false} RecutShape(l: Limits, t: Tree, h: nat, i: nat, j: nat, m: nat)
    requires Nested(l, t, h, i) && j <= i <= j + 1 < |t.children|
    requires 2 <= m <= l.childMax && 2 <= |t.children[j].children| + |t.children[j + 1].children| - m <= l.childMax
    ensures Thin(l, RecutNodes(t, j, m), h) && |RecutNodes(t, j, m).children| == |t.children|
  {
    hide Shaped, Paired;
    var r := Joined(t, j);
    var s := CutAt(r, m);
    NestedThin(l, t, h, i, j);
    NestedThin(l, t, h, i, j + 1);
    forall c | c in s.left.children || c in s.right.children ensures Shaped(l, c, h - 2) {
      assert c in r.children;
      assert c in t.children[j].children || c in t.children[j + 1].children;
    }
    ThinIsShaped(l, s.left, h - 1);
    ThinIsShaped(l, s.right, h - 1);
    PairedNested(l, t, h, i, j, Node([s.key], [s.left, s.right]));
  }

  lemma {:induction false} FixNodeShape(l: Limits, t: Tree, h: nat, i: nat)
    requires l.Ok() && Nested(l, t, h, i)
    ensures var r := FixNode(l, t, i); Thin(l, r, h) && |t.children| - 1 <= |r.children| <= |t.children|
  {
    hide Shaped, Paired, JoinNodes, RecutNodes, Thin;
    var n, size, min := |t.children|, |t.children[i].children|, MinChildren(l);
    Sizes(l, t, h, i);
    if size >= min {
      NestedIsThin(l, t, h, i);
    } else if i + 1 < n && |t.children[i + 1].children| > min {
      RecutShape(l, t, h, i, i, size + 1);
    } else if i > 0 && |t.children[i - 1].children| > min {
      RecutShape(l, t, h, i, i - 1, |t.children[i - 1].children| - 1);
    } else if i > 0 {
      JoinShape(l, t, h, i, i - 1);
    } else {
      JoinShape(l, t, h, i, i);
    }
  }

  lemma Sizes(l: Limits, t: Tree, h: nat, i: nat)
    requires Nested(l, t, h, i)
    ensures forall j :: 0 <= j < |t.children| ==> 1 <= |t.children[j].children| <= l.childMax
  {
    forall j | 0 <= j < |t.children| ensures 1 <= |t.children[j].children| <= l.childMax {
      NestedThin(l, t, h, i, j);
    }
  }

  /** Repairing an internal node keeps the values. */
  lemma {:induction false} FixNodeOk(l: Limits, t: Tree, h: nat, i: nat, lo: Key, hi: Key)
    requires l.Ok() && Nested(l, t, h, i) && Ordered(t, lo, hi)
    ensures Same(t, lo, hi, FixNode(l, t, i))
  {
    hide Shaped, Ordered, Has, Nodes, JoinNodes, RecutNodes, Thin;
    var n, size, min := |t.children|, |t.children[i].children|, MinChildren(l);
    Sizes(l, t, h, i);
    if size < min {
      if i + 1 < n && |t.children[i + 1].children| > min {
        NodesRecut(l, t, h, i, i, size + 1, lo, hi);
      } else if i > 0 && |t.children[i - 1].children| > min {
        NodesRecut(l, t, h, i, i - 1, |t.children[i - 1].children| - 1, lo, hi);
      } else if i > 0 {
        NodesJoined(l, t, h, i, i - 1, lo, hi);
      } else {
        NodesJoined(l, t, h, i, i, lo, hi);
      }
    }
  }

  // ---- Erasing.

  function Without(values: seq<Key>, k: Key): seq<Key>
    requires Contains(values, k)
  {
    values[..LowerBound(values, k)] + values[LowerBound(values, k) + 1..]
  }

  lemma {:induction false} LeavesWithout(l: Limits, t: Tree, i: nat, k: Key)
    requires Shaped(l, t, 1) && i < |t.children| && t.children[i].Leaf? && Contains(t.children[i].values, k)
    ensures Leaves(l, WithChild(t, i, Leaf(Without(t.children[i].values, k))), i)
  {
    var r := WithChild(t, i, Leaf(Without(t.children[i].values, k)));
    forall c | c in r.children ensures c.Leaf? {
      var p :| 0 <= p < |r.children| && r.children[p] == c;
      assert Shaped(l, t.children[p], 0);
    }
    forall j | 0 <= j < |t.children| ensures 0 < |t.children[j].values| <= l.leafMax {
      assert Shaped(l, t.children[j], 0);
    }
  }

  lemma {:induction false} NestedWith(l: Limits, t: Tree, h: nat, i: nat, c: Tree)
    requires h > 1 && Shaped(l, t, h) && i < |t.children| && Thin(l, c, h - 1)
    ensures Nested(l, WithChild(t, i, c), h, i)
  {
    hide Thin;
    var r := WithChild(t, i, c);
    ThinNode(l, c, h - 1);
    forall d | d in r.children ensures d.Node? && |d.children| == |d.keys| + 1 {
      var p :| 0 <= p < |r.children| && r.children[p] == d;
      assert Shaped(l, t.children[p], h - 1);
    }
  }

  lemma ThinNode(l: Limits, c: Tree, h: nat)
    requires Thin(l, c, h)
    ensures c.Node? && |c.children| == |c.keys| + 1
  {}

  /** Erases below an internal node, which may be left with one child less. */
  function EraseDown(l: Limits, t: Tree, h: nat, k: Key, leftmost: bool, rightmost: bool): (r: Tree)
    requires l.Ok() && h > 0 && Shaped(l, t, h)
    ensures Thin(l, r, h) && |t.children| - 1 <= |r.children| <= |t.children|
    decreases h
  {
    var i := LowerBound(t.keys, k);
    ChildShaped(l, t, h, i);
    ShapedIsThin(l, t, h);
    var child := t.children[i];
    if h == 1 then
      if !Contains(child.values, k) then t
      else
        LeavesWithout(l, t, i, k);
        FixLeafShape(l, WithChild(t, i, Leaf(Without(child.values, k))), i, leftmost, rightmost);
        FixLeaf(l, WithChild(t, i, Leaf(Without(child.values, k))), i, leftmost, rightmost)
    else
      var c := EraseDown(l, child, h - 1, k, leftmost && i == 0, rightmost && i == |t.keys|);
      NestedWith(l, t, h, i, c);
      if |c.children| == |child.children| then
        NestedIsThin(l, WithChild(t, i, c), h, i);
        WithChild(t, i, c)
      else
        FixNodeShape(l, WithChild(t, i, c), h, i);
        FixNode(l, WithChild(t, i, c), i)
  }

  ghost predicate Erased(t: Tree, k: Key, lo: Key, hi: Key, r: Tree) {
    Ordered(r, lo, hi) && Nodes(r) <= Nodes(t) && forall x :: Has(r, x) <==> Has(t, x) && x != k
  }

  lemma {:induction false} WithoutMembers(values: seq<Key>, i: nat, x: Key)
    requires i < |values| && Ascending(values)
    ensures x in values[..i] + values[i + 1..] <==> x in values && x != values[i]
  {
    var r := values[..i] + values[i + 1..];
    if x in values && x != values[i] {
      var p :| 0 <= p < |values| && values[p] == x;
      assert r[if p < i then p else p - 1] == x;
    }
    if x in r {
      var p :| 0 <= p < |r| && r[p] == x;
      assert x == values[if p < i then p else p + 1];
    }
  }

  lemma {:induction false} WithoutOk(values: seq<Key>, k: Key, lo: Key, hi: Key)
    requires Ordered(Leaf(values), lo, hi) && Contains(values, k)
    ensures Erased(Leaf(values), k, lo, hi, Leaf(Without(values, k)))
  {
    hide LowerBound;
    var i, r := LowerBound(values, k), Without(values, k);
    forall x ensures x in r <==> x in values && x != k {
      WithoutMembers(values, i, x);
    }
    AscendingConcat(values[..i], values[i + 1..]);
  }

  lemma {:induction false} WithChildErased(t: Tree, i: nat, c: Tree, k: Key, lo: Key, hi: Key)
    requires t.Node? && Ordered(t, lo, hi) && i < |t.children|
    requires var a, b := Bound(t.keys, lo, hi, i), Bound(t.keys, lo, hi, i + 1); a < k <= b && Erased(t.children[i], k, a, b, c)
    ensures Erased(t, k, lo, hi, WithChild(t, i, c))
  {
    hide Ordered, Nodes, Has;
    WithChildOrdered(t, i, c, lo, hi);
    WithChildNodes(t, i, c);
    forall x ensures Has(WithChild(t, i, c), x) <==> Has(t, x) && x != k {
      WithChildLacks(t, i, c, k, lo, hi, x);
    }
  }

  lemma {:induction false} WithChildLacks(t: Tree, i: nat, c: Tree, k: Key, lo: Key, hi: Key, x: Key)
    requires t.Node? && Ordered(t, lo, hi) && i < |t.children|
    requires Bound(t.keys, lo, hi, i) < k <= Bound(t.keys, lo, hi, i + 1) && (Has(c, x) <==> Has(t.children[i], x) && x != k)
    ensures Has(WithChild(t, i, c), x) <==> Has(t, x) && x != k
  {
    var r := WithChild(t, i, c);
    assert Has(r.children[i], x) == Has(c, x);
    forall j | 0 <= j < |t.children| && j != i ensures r.children[j] == t.children[j] && !Has(t.children[j], k) {
      if Has(t.children[j], k) {
        ChildInBounds(t, j, lo, hi);
        Within(t.children[j], Bound(t.keys, lo, hi, j), Bound(t.keys, lo, hi, j + 1), k);
      }
    }
  }

  lemma {:induction false} EraseDownOk(l: Limits, t: Tree, h: nat, k: Key, leftmost: bool, rightmost: bool, lo: Key, hi: Key)
    requires l.Ok() && h > 0 && Shaped(l, t, h) && t.Node? && Ordered(t, lo, hi) && lo < k <= hi
    ensures Erased(t, k, lo, hi, EraseDown(l, t, h, k, leftmost, rightmost))
    decreases h
  {
    hide Ordered, Shaped, Has, Nodes, LowerBound, Contains, Without, Bound, FixLeaf, FixNode, Leaves, Nested, Thin;
    var i := LowerBound(t.keys, k);
    DescendOk(t, lo, hi, k);
    ChildShaped(l, t, h, i);
    SearchFindsIt(t, lo, hi, k);
    var child, a, b := t.children[i], Bound(t.keys, lo, hi, i), Bound(t.keys, lo, hi, i + 1);
    if h == 1 {
      InsertedLeaf(child.values, k, a, b);
      LeafHas(child.values, k);
      if Contains(child.values, k) {
        var c := Leaf(Without(child.values, k));
        WithoutOk(child.values, k, a, b);
        WithChildErased(t, i, c, k, lo, hi);
        LeavesWithout(l, t, i, k);
        FixLeafOk(l, WithChild(t, i, c), i, leftmost, rightmost, lo, hi);
      }
    } else {
      var c := EraseDown(l, child, h - 1, k, leftmost && i == 0, rightmost && i == |t.keys|);
      EraseDownOk(l, child, h - 1, k, leftmost && i == 0, rightmost && i == |t.keys|, a, b);
      WithChildErased(t, i, c, k, lo, hi);
      NestedWith(l, t, h, i, c);
      FixNodeOk(l, WithChild(t, i, c), h, i, lo, hi);
    }
  }

  /** Erases a value, if the tree has it. A root with a single child is replaced by the child. */
  function Erase(l: Limits, r: Root, k: Key): Root
    requires l.Ok() && Valid(l, r)
  {
    if r.Empty? then r
    else if r.height == 1 then
      if !Contains(r.tree.values, k) then r
      else if |r.tree.values| == 1 then Empty
      else Root(Leaf(Without(r.tree.values, k)), 1)
    else
      var t := EraseDown(l, r.tree, r.height - 1, k, true, true);
      if |t.children| == 1 then Root(t.children[0], r.height - 1) else Root(t, r.height)
  }

  lemma {:induction false} EraseLeaf(l: Limits, r: Root, k: Key, lo: Key, hi: Key)
    requires l.Ok() && Valid(l, r) && r.Root? && r.height == 1 && r.tree.Leaf? && Ordered(r.tree, lo, hi) && lo < k <= hi
    ensures Valid(l, Erase(l, r, k)) && Size(Erase(l, r, k)) <= Size(r) && forall x :: Holds(Erase(l, r, k), x) <==> Holds(r, x) && x != k
  {
    hide Ordered, LowerBound, EraseDown;
    var values := r.tree.values;
    assert r.tree == Leaf(values);
    InsertedLeaf(values, k, lo, hi);
    if Contains(values, k) {
      WithoutOk(values, k, lo, hi);
      if |values| == 1 {
        assert values == [k];
      }
    }
  }

  /**
  Erasing keeps the tree valid and takes away exactly the value. It needs no node, and neither the number
  of nodes nor the height grows.
  */
  lemma {:induction false} EraseOk(l: Limits, r: Root, k: Key)
    requires l.Ok() && Valid(l, r)
    ensures Valid(l, Erase(l, r, k)) && Size(Erase(l, r, k)) <= Size(r)
    ensures HeightOf(r) <= HeightOf(Erase(l, r, k)) + 1 <= HeightOf(r) + 1
    ensures forall x :: Holds(Erase(l, r, k), x) <==> Holds(r, x) && x != k
  {
    hide Ordered, Shaped, Has, Nodes, LowerBound, Contains, Without, EraseDown, Thin;
    if r.Root? {
      var lo, hi := Bounds(l, r, k);
      ShapeOf(l, r.tree, r.height - 1);
      if r.height == 1 {
        EraseLeaf(l, r, k, lo, hi);
      } else {
        var t := EraseDown(l, r.tree, r.height - 1, k, true, true);
        EraseDownOk(l, r.tree, r.height - 1, k, true, true, lo, hi);
        EraseRoot(l, t, r.height - 1, lo, hi);
      }
    }
  }

  lemma {:induction false} EraseRoot(l: Limits, t: Tree, h: nat, lo: Key, hi: Key)
    requires Thin(l, t, h) && Ordered(t, lo, hi)
    ensures t.Node? && |t.children| > 0
    ensures |t.children| == 1 ==>
              && Shaped(l, t.children[0], h - 1) && Ordered(t.children[0], lo, hi) && Nodes(t.children[0]) < Nodes(t)
              && forall x :: Has(t.children[0], x) <==> Has(t, x)
    ensures |t.children| > 1 ==> Shaped(l, t, h)
  {
    hide Shaped;
    if |t.children| == 1 {
      var c := t.children[0];
      assert c in t.children;
      ChildInBounds(t, 0, lo, hi);
      assert t == Node([], [c]);
      OneChild(c, lo, hi, 0.0);
    } else {
      ThinIsShaped(l, t, h);
    }
  }

  // ---- Whole runs.

  datatype Change = Add(key: Key) | Drop(key: Key)

  function Run(l: Limits, changes: seq<Change>): (r: Root)
    requires l.Ok()
    ensures Valid(l, r)
  {
    if changes == [] then Empty
    else
      var r, c := Run(l, changes[..|changes| - 1]), changes[|changes| - 1];
      InsertOk(l, r, c.key);
      EraseOk(l, r, c.key);
      if c.Add? then Insert(l, r, c.key) else Erase(l, r, c.key)
  }

  /** What the changes leave in a set. */
  function Remaining(changes: seq<Change>): set<Key> {
    if changes == [] then {}
    else
      var s, c := Remaining(changes[..|changes| - 1]), changes[|changes| - 1];
      if c.Add? then s + {c.key} else s - {c.key}
  }

  /** After any insertions and erasures, in any order, exactly those values are found that a set would have. */
  lemma {:induction false} LookupAfterRun(l: Limits, changes: seq<Change>, k: Key)
    requires l.Ok()
    ensures Lookup(l, Run(l, changes), k) <==> k in Remaining(changes)
  {
    hide Valid, Holds, Lookup;
    LookupOk(l, Run(l, changes), k);
    HoldsAfterRun(l, changes, k);
  }

  lemma {:induction false} HoldsAfterRun(l: Limits, changes: seq<Change>, k: Key)
    requires l.Ok()
    ensures Holds(Run(l, changes), k) <==> k in Remaining(changes)
  {
    hide Valid, Insert, Erase;
    if changes != [] {
      var n := |changes| - 1;
      var r := Run(l, changes[..n]);
      HoldsAfterRun(l, changes[..n], k);
      InsertOk(l, r, changes[n].key);
      EraseOk(l, r, changes[n].key);
    }
  }
}
