/**
Insertion into the B+ tree: full internal nodes are split on the way down, a full leaf at the bottom.
*/
module BTree {

  /** Real numbers have room for every order of entries, those of block numbers and those of pairs. */
  type Key = real

  /** Values are in the leaves; child `i` of an internal node holds the values up to key `i`. */
  datatype Tree = Leaf(values: seq<Key>) | Node(keys: seq<Key>, children: seq<Tree>)

  datatype Limits = Limits(leafMax: nat, childMax: nat) {
    predicate Ok() {
      leafMax >= 2 && childMax >= 4
    }
  }

  // ---- What makes a tree.

  ghost predicate Ascending(s: seq<Key>) {
    forall i, j :: 0 <= i < j < |s| ==> s[i] < s[j]
  }

  /** The lower bound of child `i`, and the upper bound of child `i - 1`. */
  ghost function Bound(keys: seq<Key>, lo: Key, hi: Key, i: nat): Key
    requires i <= |keys| + 1
  {
    if i == 0 then lo else if i == |keys| + 1 then hi else keys[i - 1]
  }

  /** All leaves are `h` levels down, and no node is too small or too large. */
  ghost predicate Shaped(l: Limits, t: Tree, h: nat)
    decreases t
  {
    if h == 0 then t.Leaf? && 0 < |t.values| <= l.leafMax
    else
      && t.Node? && |t.children| == |t.keys| + 1 && 2 <= |t.children| <= l.childMax
      && forall i :: 0 <= i < |t.children| ==> Shaped(l, t.children[i], h - 1)
  }

  /** A search tree for values above `lo` and up to `hi`. */
  ghost predicate Ordered(t: Tree, lo: Key, hi: Key)
    decreases t
  {
    match t
    case Leaf(values) => Ascending(values) && forall x :: x in values ==> lo < x <= hi
    case Node(keys, children) =>
      && Ascending(keys) && |children| == |keys| + 1 && (forall x :: x in keys ==> lo < x <= hi)
      && forall i :: 0 <= i < |children| ==> ChildOrdered(keys, children, lo, hi, i)
  }

  ghost predicate ChildOrdered(keys: seq<Key>, children: seq<Tree>, lo: Key, hi: Key, i: nat)
    requires i < |children| == |keys| + 1
    decreases children
  {
    Ordered(children[i], Bound(keys, lo, hi, i), Bound(keys, lo, hi, i + 1))
  }

  ghost predicate Has(t: Tree, x: Key)
    decreases t
  {
    match t
    case Leaf(values) => x in values
    case Node(_, children) => exists i :: 0 <= i < |children| && Has(children[i], x)
  }

  /** The number of nodes, which is the number of blocks that the tree takes. */
  function Nodes(t: Tree): nat
    decreases t
  {
    match t
    case Leaf(_) => 1
    case Node(_, children) => 1 + NodesAll(children)
  }

  function NodesAll(s: seq<Tree>): nat
    decreases s
  {
    if s == [] then 0 else NodesAll(s[..|s| - 1]) + Nodes(s[|s| - 1])
  }

  lemma {:induction false} NodesConcat(a: seq<Tree>, b: seq<Tree>)
    ensures NodesAll(a + b) == NodesAll(a) + NodesAll(b)
    decreases |b|
  {
    hide Nodes;
    if b == [] {
      assert a + b == a;
    } else {
      var n := |b| - 1;
      NodesConcat(a, b[..n]);
      assert (a + b)[..|a| + n] == a + b[..n];
    }
  }

  lemma NodesReplace(s: seq<Tree>, i: nat, r: seq<Tree>)
    requires i < |s|
    ensures NodesAll(s[..i] + r + s[i + 1..]) + Nodes(s[i]) == NodesAll(s) + NodesAll(r)
  {
    hide Nodes;
    NodesConcat(s[..i] + r, s[i + 1..]);
    NodesConcat(s[..i], r);
    NodesConcat(s[..i], s[i..]);
    NodesConcat([s[i]], s[i + 1..]);
    assert s == s[..i] + s[i..] && s[i..] == [s[i]] + s[i + 1..];
    assert [s[i]][..0] == [];
  }

  // ---- Searching in a node.

  /** The first position whose key is not below `x`. */
  function LowerBound(keys: seq<Key>, x: Key): (r: nat)
    ensures r <= |keys| && (forall i :: 0 <= i < r ==> keys[i] < x) && (r < |keys| ==> x <= keys[r])
  {
    if keys == [] || x <= keys[0] then 0 else 1 + LowerBound(keys[1..], x)
  }

  /** The search descends into the only child that can hold the value. */
  lemma {:induction false} SearchFindsIt(t: Tree, lo: Key, hi: Key, x: Key)
    requires Ordered(t, lo, hi) && t.Node? && lo < x <= hi
    ensures Has(t, x) <==> Has(t.children[LowerBound(t.keys, x)], x)
  {
    hide LowerBound;
    var i := LowerBound(t.keys, x);
    assert (i > 0 ==> t.keys[i - 1] < x) && (i < |t.keys| ==> x <= t.keys[i]);
    forall j | 0 <= j < |t.children| && Has(t.children[j], x) ensures j == i {
      assert ChildOrdered(t.keys, t.children, lo, hi, j);
      Within(t.children[j], Bound(t.keys, lo, hi, j), Bound(t.keys, lo, hi, j + 1), x);
    }
  }

  lemma {:induction false} Within(t: Tree, lo: Key, hi: Key, x: Key)
    requires Ordered(t, lo, hi) && Has(t, x)
    ensures lo < x <= hi
    decreases t
  {
    match t
    case Leaf(_) =>
    case Node(keys, children) =>
      var i :| 0 <= i < |children| && Has(children[i], x);
      assert ChildOrdered(keys, children, lo, hi, i);
      Within(children[i], Bound(keys, lo, hi, i), Bound(keys, lo, hi, i + 1), x);
      assert (i > 0 ==> keys[i - 1] in keys) && (i < |keys| ==> keys[i] in keys);
  }

  // ---- Splitting.

  datatype Halves = Halves(left: Tree, key: Key, right: Tree)

  /** The first `m` children, the key behind them, and the other children. */
  function CutAt(t: Tree, m: nat): Halves
    requires t.Node? && 0 < m < |t.children| == |t.keys| + 1
  {
    Halves(Node(t.keys[..m - 1], t.children[..m]), t.keys[m - 1], Node(t.keys[m..], t.children[m..]))
  }

  /** Splits a full internal node in the middle. */
  function Split(t: Tree): Halves
    requires t.Node? && |t.children| == |t.keys| + 1 && |t.children| >= 4
  {
    CutAt(t, (|t.children| + 1) / 2)
  }

  /** Both halves are trees of the same height, on either side of the key. */
  lemma {:induction false} SplitOk(l: Limits, t: Tree, h: nat, lo: Key, hi: Key)
    requires l.Ok() && h > 0 && Shaped(l, t, h) && Ordered(t, lo, hi) && |t.children| == l.childMax
    ensures var s := Split(t);
            && Shaped(l, s.left, h) && Shaped(l, s.right, h) && lo < s.key <= hi
            && Ordered(s.left, lo, s.key) && Ordered(s.right, s.key, hi)
            && |s.left.children| < l.childMax && |s.right.children| < l.childMax
  {
    hide Ordered;
    CutLeft(t, (|t.children| + 1) / 2, lo, hi);
    CutRight(t, (|t.children| + 1) / 2, lo, hi);
  }

  lemma {:induction false} CutLeft(t: Tree, m: nat, lo: Key, hi: Key)
    requires Ordered(t, lo, hi) && t.Node? && 0 < m < |t.children| == |t.keys| + 1
    ensures Ordered(CutAt(t, m).left, lo, CutAt(t, m).key) && lo < CutAt(t, m).key <= hi
  {
    var s := CutAt(t, m);
    assert t.keys[m - 1] in t.keys;
    forall x | x in s.left.keys ensures x in t.keys && x < s.key {
    }
    forall i | 0 <= i < m ensures ChildOrdered(s.left.keys, s.left.children, lo, s.key, i) {
      assert ChildOrdered(t.keys, t.children, lo, hi, i);
    }
  }

  lemma {:induction false} CutRight(t: Tree, m: nat, lo: Key, hi: Key)
    requires Ordered(t, lo, hi) && t.Node? && 0 < m < |t.children| == |t.keys| + 1
    ensures Ordered(CutAt(t, m).right, CutAt(t, m).key, hi)
  {
    var s := CutAt(t, m);
    forall x | x in s.right.keys ensures x in t.keys && s.key < x {
    }
    forall i | 0 <= i < |s.right.children| ensures ChildOrdered(s.right.keys, s.right.children, s.key, hi, i) {
      assert ChildOrdered(t.keys, t.children, lo, hi, i + m);
    }
  }

  lemma {:induction false} CutNodes(t: Tree, m: nat)
    requires t.Node? && 0 < m < |t.children| == |t.keys| + 1
    ensures Nodes(CutAt(t, m).left) + Nodes(CutAt(t, m).right) == Nodes(t) + 1
  {
    NodesConcat(t.children[..m], t.children[m..]);
    assert t.children == t.children[..m] + t.children[m..];
  }

  lemma {:induction false} CutHas(t: Tree, m: nat, x: Key)
    requires t.Node? && 0 < m < |t.children| == |t.keys| + 1
    ensures Has(t, x) <==> Has(CutAt(t, m).left, x) || Has(CutAt(t, m).right, x)
  {
    var s := CutAt(t, m);
    forall i | 0 <= i < |t.children| && Has(t.children[i], x) ensures Has(s.left, x) || Has(s.right, x) {
      assert i < m ==> s.left.children[i] == t.children[i];
      assert i >= m ==> s.right.children[i - m] == t.children[i];
    }
    forall i | 0 <= i < |s.right.children| && Has(s.right.children[i], x) ensures Has(t, x) {
      assert s.right.children[i] == t.children[i + m];
    }
  }

  lemma {:induction false} SplitNodes(t: Tree)
    requires t.Node? && |t.children| == |t.keys| + 1 && |t.children| >= 4
    ensures Nodes(Split(t).left) + Nodes(Split(t).right) == Nodes(t) + 1
  {
    CutNodes(t, (|t.children| + 1) / 2);
  }

  lemma {:induction false} SplitHas(t: Tree, x: Key)
    requires t.Node? && |t.children| == |t.keys| + 1 && |t.children| >= 4
    ensures Has(t, x) <==> Has(Split(t).left, x) || Has(Split(t).right, x)
  {
    CutHas(t, (|t.children| + 1) / 2, x);
  }

  /** A tree that is not empty needs room between its bounds. */
  lemma {:induction false} Inhabited(l: Limits, t: Tree, h: nat, lo: Key, hi: Key)
    requires Shaped(l, t, h) && Ordered(t, lo, hi)
    ensures lo < hi
    decreases h
  {
    if h == 0 {
      assert t.values[0] in t.values;
    } else {
      assert ChildOrdered(t.keys, t.children, lo, hi, 0);
      Inhabited(l, t.children[0], h - 1, lo, t.keys[0]);
      assert t.keys[0] in t.keys;
    }
  }

  function InsertedAt<T>(s: seq<T>, i: nat, x: T): (r: seq<T>)
    requires i <= |s|
    ensures |r| == |s| + 1
  {
    s[..i] + [x] + s[i..]
  }

  // ---- Changing one child.

  function WithChild(t: Tree, i: nat, c: Tree): Tree
    requires t.Node? && i < |t.children|
  {
    Node(t.keys, t.children[i := c])
  }

  /** Child `i` is replaced by two, with the key between them. */
  function WithSplit(t: Tree, i: nat, s: Halves): Tree
    requires t.Node? && i < |t.children| == |t.keys| + 1
  {
    Node(InsertedAt(t.keys, i, s.key), t.children[..i] + [s.left, s.right] + t.children[i + 1..])
  }

  lemma {:induction false} WithChildOrdered(t: Tree, i: nat, c: Tree, lo: Key, hi: Key)
    requires t.Node? && Ordered(t, lo, hi) && i < |t.children| && Ordered(c, Bound(t.keys, lo, hi, i), Bound(t.keys, lo, hi, i + 1))
    ensures Ordered(WithChild(t, i, c), lo, hi)
  {
    var r := WithChild(t, i, c);
    forall j | 0 <= j < |r.children| ensures ChildOrdered(r.keys, r.children, lo, hi, j) {
      assert ChildOrdered(t.keys, t.children, lo, hi, j);
    }
  }

  lemma {:induction false} WithChildNodes(t: Tree, i: nat, c: Tree)
    requires t.Node? && i < |t.children|
    ensures Nodes(WithChild(t, i, c)) + Nodes(t.children[i]) == Nodes(t) + Nodes(c)
  {
    NodesReplace(t.children, i, [c]);
    assert t.children[i := c] == t.children[..i] + [c] + t.children[i + 1..];
    assert [c][..0] == [];
  }

  lemma {:induction false} WithChildOk(l: Limits, t: Tree, h: nat, i: nat, c: Tree, lo: Key, hi: Key)
    requires h > 0 && Shaped(l, t, h) && Ordered(t, lo, hi) && i < |t.children| && Shaped(l, c, h - 1)
    requires Ordered(c, Bound(t.keys, lo, hi, i), Bound(t.keys, lo, hi, i + 1))
    ensures Shaped(l, WithChild(t, i, c), h) && Ordered(WithChild(t, i, c), lo, hi)
    ensures Nodes(WithChild(t, i, c)) + Nodes(t.children[i]) == Nodes(t) + Nodes(c)
  {
    hide Ordered, Nodes;
    WithChildOrdered(t, i, c, lo, hi);
    WithChildNodes(t, i, c);
  }

  lemma WithChildHas(t: Tree, i: nat, c: Tree, x: Key, added: bool)
    requires t.Node? && i < |t.children| && (Has(c, x) <==> Has(t.children[i], x) || added)
    ensures Has(WithChild(t, i, c), x) <==> Has(t, x) || added
  {
    var r := WithChild(t, i, c);
    assert Has(r.children[i], x) == Has(c, x);
    forall j | 0 <= j < |t.children| && j != i ensures r.children[j] == t.children[j] {
    }
  }

  lemma {:induction false} WithSplitShaped(l: Limits, t: Tree, h: nat, i: nat, s: Halves)
    requires h > 0 && Shaped(l, t, h) && i < |t.children| < l.childMax && Shaped(l, s.left, h - 1) && Shaped(l, s.right, h - 1)
    ensures Shaped(l, WithSplit(t, i, s), h)
    ensures Nodes(WithSplit(t, i, s)) + Nodes(t.children[i]) == Nodes(t) + Nodes(s.left) + Nodes(s.right)
  {
    var r := WithSplit(t, i, s);
    forall j | 0 <= j < |r.children| ensures Shaped(l, r.children[j], h - 1) {
      assert j > i + 1 ==> r.children[j] == t.children[j - 1];
    }
    NodesReplace(t.children, i, [s.left, s.right]);
    NodesConcat([s.left], [s.right]);
    assert [s.left, s.right] == [s.left] + [s.right] && [s.left][..0] == [] && [s.right][..0] == [];
  }

  lemma {:induction false} WithSplitOrdered(t: Tree, i: nat, s: Halves, lo: Key, hi: Key)
    requires t.Node? && Ordered(t, lo, hi) && i < |t.children|
    requires var a, b := Bound(t.keys, lo, hi, i), Bound(t.keys, lo, hi, i + 1);
             a < s.key < b && Ordered(s.left, a, s.key) && Ordered(s.right, s.key, b)
    ensures Ordered(WithSplit(t, i, s), lo, hi)
  {
    var r := WithSplit(t, i, s);
    assert (i > 0 ==> t.keys[i - 1] in t.keys) && (i < |t.keys| ==> t.keys[i] in t.keys);
    assert lo < s.key <= hi;
    KeysStayAscending(t.keys, i, s.key);
    forall x | x in r.keys ensures x in t.keys || x == s.key {
    }
    forall j | 0 <= j < |r.children| ensures ChildOrdered(r.keys, r.children, lo, hi, j) {
      if j < i {
        assert ChildOrdered(t.keys, t.children, lo, hi, j);
      } else if j > i + 1 {
        assert ChildOrdered(t.keys, t.children, lo, hi, j - 1);
      }
    }
  }

  lemma KeysStayAscending(keys: seq<Key>, i: nat, k: Key)
    requires Ascending(keys) && i <= |keys| && (i > 0 ==> keys[i - 1] < k) && (i < |keys| ==> k < keys[i])
    ensures Ascending(InsertedAt(keys, i, k))
  {}

  lemma WithSplitHas(t: Tree, i: nat, s: Halves, x: Key, added: bool)
    requires t.Node? && i < |t.children| == |t.keys| + 1 && (Has(s.left, x) || Has(s.right, x) <==> Has(t.children[i], x) || added)
    ensures Has(WithSplit(t, i, s), x) <==> Has(t, x) || added
  {
    var r := WithSplit(t, i, s);
    assert r.children[i] == s.left && r.children[i + 1] == s.right;
    forall j | 0 <= j < |t.children| && j != i ensures r.children[if j < i then j else j + 1] == t.children[j] {
    }
    forall j | 0 <= j < |r.children| && Has(r.children[j], x) ensures Has(t, x) || added {
      assert j < i ==> r.children[j] == t.children[j];
      assert j > i + 1 ==> r.children[j] == t.children[j - 1];
    }
  }

  // ---- Insertion.

  /** The number of values that stay in a full leaf; the first and the last leaf expect values in order. */
  function LeftSize(n: nat, leftmost: bool, rightmost: bool): nat {
    if rightmost then n else if leftmost then 1 else (n + 2) / 2
  }

  function InsertValue(values: seq<Key>, k: Key): seq<Key> {
    InsertedAt(values, LowerBound(values, k), k)
  }

  /** Splits a full leaf and inserts the value. */
  function SplitLeaf(values: seq<Key>, k: Key, leftmost: bool, rightmost: bool): Halves
    requires |values| >= 2
  {
    var all := InsertValue(values, k);
    var m := LeftSize(|values|, leftmost, rightmost);
    Halves(Leaf(all[..m]), all[m - 1], Leaf(all[m..]))
  }

  predicate Contains(values: seq<Key>, k: Key) {
    var i := LowerBound(values, k);
    i < |values| && values[i] == k
  }

  lemma ChildShaped(l: Limits, t: Tree, h: nat, i: nat)
    requires h > 0 && Shaped(l, t, h) && i < |t.children|
    ensures var c := t.children[i];
            && Shaped(l, c, h - 1)
            && (h == 1 ==> c.Leaf? && 0 < |c.values| <= l.leafMax)
            && (h > 1 ==> c.Node? && |c.children| == |c.keys| + 1 && 2 <= |c.children| <= l.childMax)
  {}

  lemma HalvesShaped(l: Limits, t: Tree, h: nat)
    requires l.Ok() && h > 0 && Shaped(l, t, h) && |t.children| == l.childMax
    ensures var s := Split(t);
            && Shaped(l, s.left, h) && Shaped(l, s.right, h)
            && |s.left.children| < l.childMax && |s.right.children| < l.childMax
  {}

  /** A tree after an insertion that could take only so many new nodes, and whether the value is in it. */
  datatype Attempt = Attempt(tree: Tree, done: bool)

  /**
  Inserts below an internal node that is not full; its leaves are `h` levels down and there are `n` nodes
  to take. Splits that were made on the way stay when a node is missing further down.
  */
  function InsertDown(l: Limits, t: Tree, h: nat, k: Key, leftmost: bool, rightmost: bool, n: nat): Attempt
    requires l.Ok() && h > 0 && Shaped(l, t, h) && |t.children| < l.childMax
    decreases h, 1
  {
    var i := LowerBound(t.keys, k);
    ChildShaped(l, t, h, i);
    var child := t.children[i];
    var first, last := leftmost && i == 0, rightmost && i == |t.keys|;
    if h == 1 then
      if Contains(child.values, k) then Attempt(t, true)
      else if |child.values| < l.leafMax then Attempt(WithChild(t, i, Leaf(InsertValue(child.values, k))), true)
      else if n == 0 then Attempt(t, false)
      else Attempt(WithSplit(t, i, SplitLeaf(child.values, k, first, last)), true)
    else if |child.children| < l.childMax then
      var a := InsertDown(l, child, h - 1, k, first, last, n);
      a.(tree := WithChild(t, i, a.tree))
    else if n == 0 then Attempt(t, false)
    else InsertSplit(l, t, h, i, k, first, last, n - 1)
  }

  /** Splits the full child `i` and continues in the half that the position in the child falls into. */
  function InsertSplit(l: Limits, t: Tree, h: nat, i: nat, k: Key, first: bool, last: bool, n: nat): Attempt
    requires l.Ok() && h > 1 && Shaped(l, t, h) && i < |t.children| < l.childMax
    requires t.children[i].Node? && |t.children[i].children| == l.childMax
    decreases h, 0
  {
    ChildShaped(l, t, h, i);
    HalvesShaped(l, t.children[i], h - 1);
    var s := Split(t.children[i]);
    if LowerBound(t.children[i].keys, k) < |s.left.children| then
      var a := InsertDown(l, s.left, h - 1, k, first, false, n);
      a.(tree := WithSplit(t, i, s.(left := a.tree)))
    else
      var a := InsertDown(l, s.right, h - 1, k, false, last, n);
      a.(tree := WithSplit(t, i, s.(right := a.tree)))
  }

  // ---- What insertion does.

  lemma InsertedMembers(values: seq<Key>, k: Key, x: Key)
    ensures x in InsertValue(values, k) <==> x in values || x == k
  {
    var i := LowerBound(values, k);
    assert values == values[..i] + values[i..];
  }

  lemma {:induction false} InsertedLeaf(values: seq<Key>, k: Key, lo: Key, hi: Key)
    requires Ordered(Leaf(values), lo, hi) && lo < k <= hi
    ensures Contains(values, k) <==> k in values
    ensures k !in values ==> Ordered(Leaf(InsertValue(values, k)), lo, hi)
  {
    var i := LowerBound(values, k);
    if k !in values {
      KeysStayAscending(values, i, k);
      forall x | x in InsertValue(values, k) ensures lo < x <= hi {
        InsertedMembers(values, k, x);
      }
    }
  }

  /** Cutting an ordered leaf in two. */
  lemma {:induction false} CutLeaf(all: seq<Key>, m: nat, lo: Key, hi: Key)
    requires Ordered(Leaf(all), lo, hi) && 0 < m < |all|
    ensures lo < all[m - 1] < hi && Ordered(Leaf(all[..m]), lo, all[m - 1]) && Ordered(Leaf(all[m..]), all[m - 1], hi)
    ensures forall x :: x in all <==> x in all[..m] || x in all[m..]
  {
    assert all[m - 1] in all && all[m] in all && all == all[..m] + all[m..];
    forall x | x in all[..m] ensures lo < x <= all[m - 1] {
      assert x in all;
    }
    forall x | x in all[m..] ensures all[m - 1] < x <= hi {
      assert x in all;
    }
  }

  lemma {:induction false} SplitLeafOk(l: Limits, values: seq<Key>, k: Key, lo: Key, hi: Key, leftmost: bool, rightmost: bool)
    requires l.Ok() && |values| == l.leafMax && Ordered(Leaf(values), lo, hi) && lo < k <= hi && k !in values
    ensures var s := SplitLeaf(values, k, leftmost, rightmost);
            && Shaped(l, s.left, 0) && Shaped(l, s.right, 0) && lo < s.key < hi
            && Ordered(s.left, lo, s.key) && Ordered(s.right, s.key, hi)
  {
    hide Ordered, LowerBound;
    InsertedLeaf(values, k, lo, hi);
    CutLeaf(InsertValue(values, k), LeftSize(|values|, leftmost, rightmost), lo, hi);
  }

  lemma {:induction false} SplitLeafHas(values: seq<Key>, k: Key, leftmost: bool, rightmost: bool, x: Key)
    requires |values| >= 2
    ensures var s := SplitLeaf(values, k, leftmost, rightmost);
            Has(s.left, x) || Has(s.right, x) <==> x in values || x == k
  {
    hide LowerBound;
    InsertedMembers(values, k, x);
    var all, m := InsertValue(values, k), LeftSize(|values|, leftmost, rightmost);
    assert all == all[..m] + all[m..];
  }

  /** Position and key agree on the half. */
  lemma HalfOf(t: Tree, k: Key)
    requires t.Node? && |t.children| == |t.keys| + 1 && |t.children| >= 4 && Ascending(t.keys)
    ensures LowerBound(t.keys, k) < |Split(t).left.children| <==> k <= Split(t).key
  {
    hide LowerBound;
  }

  /**
  The result of an insertion below a node with bounds `lo` and `hi`: with `n` nodes to take it may fail,
  but then all are used; with `most` it does not.
  */
  ghost predicate Inserted(l: Limits, t: Tree, h: nat, k: Key, lo: Key, hi: Key, r: Attempt, n: nat, most: nat) {
    && Shaped(l, r.tree, h) && Ordered(r.tree, lo, hi) && Nodes(t) <= Nodes(r.tree) <= Nodes(t) + most
    && (if r.done then Nodes(r.tree) <= Nodes(t) + n else n < most && Nodes(r.tree) == Nodes(t) + n)
    && forall x :: Has(r.tree, x) <==> Has(t, x) || (r.done && x == k)
  }

  lemma {:induction false} InsertDownOk(l: Limits, t: Tree, h: nat, k: Key, leftmost: bool, rightmost: bool, n: nat, lo: Key, hi: Key)
    requires l.Ok() && h > 0 && Shaped(l, t, h) && t.Node? && |t.children| < l.childMax && Ordered(t, lo, hi) && lo < k <= hi
    ensures Inserted(l, t, h, k, lo, hi, InsertDown(l, t, h, k, leftmost, rightmost, n), n, h)
    decreases h, 1
  {
    hide Ordered, Shaped, Has, Nodes, LowerBound, Contains, InsertValue, Split, SplitLeaf, Bound;
    var i := LowerBound(t.keys, k);
    DescendOk(t, lo, hi, k);
    ChildShaped(l, t, h, i);
    var child, a, b := t.children[i], Bound(t.keys, lo, hi, i), Bound(t.keys, lo, hi, i + 1);
    var first, last := leftmost && i == 0, rightmost && i == |t.keys|;
    if h == 1 {
      InsertLeafOk(l, t, i, k, first, last, n, lo, hi);
    } else if |child.children| < l.childMax {
      InsertDownOk(l, child, h - 1, k, first, last, n, a, b);
      ReplacedOk(l, t, h, i, k, lo, hi, InsertDown(l, child, h - 1, k, first, last, n), n, h - 1);
    } else if n > 0 {
      InsertSplitOk(l, t, h, i, k, first, last, n - 1, lo, hi);
    }
  }

  lemma {:induction false} DescendOk(t: Tree, lo: Key, hi: Key, k: Key)
    requires t.Node? && Ordered(t, lo, hi) && lo < k <= hi
    ensures var i := LowerBound(t.keys, k);
            && i < |t.children| == |t.keys| + 1 && Bound(t.keys, lo, hi, i) < k <= Bound(t.keys, lo, hi, i + 1)
            && Ordered(t.children[i], Bound(t.keys, lo, hi, i), Bound(t.keys, lo, hi, i + 1)) && Ascending(t.keys)
  {
    hide LowerBound;
    var i := LowerBound(t.keys, k);
    assert ChildOrdered(t.keys, t.children, lo, hi, i);
  }

  /** The child is replaced by the result of an insertion into it. */
  lemma {:induction false} ReplacedOk(l: Limits, t: Tree, h: nat, i: nat, k: Key, lo: Key, hi: Key, c: Attempt, n: nat, most: nat)
    requires h > 1 && Shaped(l, t, h) && Ordered(t, lo, hi) && t.Node? && i < |t.children| == |t.keys| + 1
    requires Inserted(l, t.children[i], h - 1, k, Bound(t.keys, lo, hi, i), Bound(t.keys, lo, hi, i + 1), c, n, most)
    ensures Inserted(l, t, h, k, lo, hi, Attempt(WithChild(t, i, c.tree), c.done), n, most)
    ensures Inserted(l, t, h, k, lo, hi, Attempt(WithChild(t, i, c.tree), c.done), n, most + 1)
  {
    hide Ordered, Shaped, Has, Nodes, Bound;
    WithChildOk(l, t, h, i, c.tree, lo, hi);
    forall x ensures Has(WithChild(t, i, c.tree), x) <==> Has(t, x) || (c.done && x == k) {
      WithChildHas(t, i, c.tree, x, c.done && x == k);
    }
  }

  lemma {:induction false} InsertLeafOk(l: Limits, t: Tree, i: nat, k: Key, first: bool, last: bool, n: nat, lo: Key, hi: Key)
    requires l.Ok() && Shaped(l, t, 1) && t.Node? && |t.children| < l.childMax && Ordered(t, lo, hi) && i < |t.children| == |t.keys| + 1
    requires t.children[i].Leaf? && Shaped(l, t.children[i], 0) && 0 < |t.children[i].values| <= l.leafMax
    requires var a, b := Bound(t.keys, lo, hi, i), Bound(t.keys, lo, hi, i + 1); a < k <= b && Ordered(t.children[i], a, b)
    ensures var values := t.children[i].values;
            Inserted(l, t, 1, k, lo, hi,
                     if Contains(values, k) then Attempt(t, true)
                     else if |values| < l.leafMax then Attempt(WithChild(t, i, Leaf(InsertValue(values, k))), true)
                     else if n == 0 then Attempt(t, false)
                     else Attempt(WithSplit(t, i, SplitLeaf(values, k, first, last)), true), n, 1)
  {
    hide Ordered, Shaped, Nodes, LowerBound, Contains, InsertValue, SplitLeaf, Bound;
    var values, a, b := t.children[i].values, Bound(t.keys, lo, hi, i), Bound(t.keys, lo, hi, i + 1);
    InsertedLeaf(values, k, a, b);
    if Contains(values, k) {
      assert Has(t.children[i], k);
    } else if |values| < l.leafMax {
      InsertIntoLeaf(l, t, i, k, n, lo, hi);
    } else if n > 0 {
      InsertIntoFullLeaf(l, t, i, k, first, last, n, lo, hi);
    }
  }

  lemma {:induction false} InsertIntoLeaf(l: Limits, t: Tree, i: nat, k: Key, n: nat, lo: Key, hi: Key)
    requires l.Ok() && Shaped(l, t, 1) && t.Node? && Ordered(t, lo, hi) && i < |t.children| == |t.keys| + 1
    requires t.children[i].Leaf? && |t.children[i].values| < l.leafMax
    requires Ordered(Leaf(InsertValue(t.children[i].values, k)), Bound(t.keys, lo, hi, i), Bound(t.keys, lo, hi, i + 1))
    ensures Inserted(l, t, 1, k, lo, hi, Attempt(WithChild(t, i, Leaf(InsertValue(t.children[i].values, k))), true), n, 1)
  {
    hide Ordered, LowerBound, Bound;
    var values := t.children[i].values;
    var c := Leaf(InsertValue(values, k));
    assert Shaped(l, c, 0);
    WithChildOk(l, t, 1, i, c, lo, hi);
    forall x ensures Has(WithChild(t, i, c), x) <==> Has(t, x) || x == k {
      InsertedMembers(values, k, x);
      WithChildHas(t, i, c, x, x == k);
    }
  }

  lemma {:induction false} InsertIntoFullLeaf(l: Limits, t: Tree, i: nat, k: Key, first: bool, last: bool, n: nat, lo: Key, hi: Key)
    requires l.Ok() && Shaped(l, t, 1) && t.Node? && |t.children| < l.childMax && Ordered(t, lo, hi) && i < |t.children| == |t.keys| + 1
    requires n > 0 && t.children[i].Leaf? && |t.children[i].values| == l.leafMax && k !in t.children[i].values
    requires var a, b := Bound(t.keys, lo, hi, i), Bound(t.keys, lo, hi, i + 1); a < k <= b && Ordered(t.children[i], a, b)
    ensures Inserted(l, t, 1, k, lo, hi, Attempt(WithSplit(t, i, SplitLeaf(t.children[i].values, k, first, last)), true), n, 1)
  {
    hide Ordered, Shaped, LowerBound, Bound;
    var values, a, b := t.children[i].values, Bound(t.keys, lo, hi, i), Bound(t.keys, lo, hi, i + 1);
    var s := SplitLeaf(values, k, first, last);
    SplitLeafOk(l, values, k, a, b, first, last);
    WithSplitShaped(l, t, 1, i, s);
    WithSplitOrdered(t, i, s, lo, hi);
    forall x ensures Has(WithSplit(t, i, s), x) <==> Has(t, x) || x == k {
      SplitLeafHas(values, k, first, last, x);
      WithSplitHas(t, i, s, x, x == k);
    }
  }

  lemma {:induction false} InsertSplitOk(l: Limits, t: Tree, h: nat, i: nat, k: Key, first: bool, last: bool, n: nat, lo: Key, hi: Key)
    requires l.Ok() && h > 1 && Shaped(l, t, h) && t.Node? && i < |t.children| < l.childMax && |t.children| == |t.keys| + 1 && Ordered(t, lo, hi)
    requires var c := t.children[i]; c.Node? && Shaped(l, c, h - 1) && |c.children| == l.childMax && |c.children| == |c.keys| + 1
    requires var a, b := Bound(t.keys, lo, hi, i), Bound(t.keys, lo, hi, i + 1); a < k <= b && Ordered(t.children[i], a, b)
    ensures Inserted(l, t, h, k, lo, hi, InsertSplit(l, t, h, i, k, first, last, n), n + 1, h)
    ensures Nodes(InsertSplit(l, t, h, i, k, first, last, n).tree) > Nodes(t)
    decreases h, 0
  {
    hide Ordered, Shaped, Has, Nodes, LowerBound, Bound;
    var c, a, b := t.children[i], Bound(t.keys, lo, hi, i), Bound(t.keys, lo, hi, i + 1);
    var s := Split(c);
    SplitOk(l, c, h - 1, a, b);
    SplitNodes(c);
    KeysOf(c, a, b);
    HalfOf(c, k);
    Inhabited(l, s.right, h - 1, s.key, b);
    if k <= s.key {
      InsertDownOk(l, s.left, h - 1, k, first, false, n, a, s.key);
      var r := InsertDown(l, s.left, h - 1, k, first, false, n);
      HalvesOk(l, t, h, i, k, lo, hi, s, s.(left := r.tree), n, r.done);
    } else {
      InsertDownOk(l, s.right, h - 1, k, false, last, n, s.key, b);
      var r := InsertDown(l, s.right, h - 1, k, false, last, n);
      HalvesOk(l, t, h, i, k, lo, hi, s, s.(right := r.tree), n, r.done);
    }
  }

  lemma KeysOf(t: Tree, lo: Key, hi: Key)
    requires Ordered(t, lo, hi) && t.Node?
    ensures Ascending(t.keys)
  {}

  /** One of the two halves of a split child took the value, or tried to. */
  lemma {:induction false} HalvesOk(l: Limits, t: Tree, h: nat, i: nat, k: Key, lo: Key, hi: Key, s: Halves, s': Halves, n: nat, done: bool)
    requires l.Ok() && h > 1 && Shaped(l, t, h) && t.Node? && i < |t.children| < l.childMax && |t.children| == |t.keys| + 1 && Ordered(t, lo, hi)
    requires t.children[i].Node? && |t.children[i].children| == |t.children[i].keys| + 1 >= 4 && s == Split(t.children[i])
    requires Shaped(l, s.left, h - 1) && Shaped(l, s.right, h - 1) && s'.key == s.key
    requires var a, b := Bound(t.keys, lo, hi, i), Bound(t.keys, lo, hi, i + 1);
             && a < s.key < b && Ordered(s.left, a, s.key) && Ordered(s.right, s.key, b)
             && (|| (s'.right == s.right && Inserted(l, s.left, h - 1, k, a, s.key, Attempt(s'.left, done), n, h - 1))
                 || (s'.left == s.left && Inserted(l, s.right, h - 1, k, s.key, b, Attempt(s'.right, done), n, h - 1)))
    ensures Inserted(l, t, h, k, lo, hi, Attempt(WithSplit(t, i, s'), done), n + 1, h)
    ensures Nodes(WithSplit(t, i, s')) + Nodes(s.left) + Nodes(s.right) == Nodes(t) + 1 + Nodes(s'.left) + Nodes(s'.right)
  {
    hide Ordered, Shaped, Has, Nodes, Bound, Split;
    SplitNodes(t.children[i]);
    WithSplitShaped(l, t, h, i, s');
    WithSplitOrdered(t, i, s', lo, hi);
    forall x ensures Has(WithSplit(t, i, s'), x) <==> Has(t, x) || (done && x == k) {
      SplitHas(t.children[i], x);
      WithSplitHas(t, i, s', x, done && x == k);
    }
  }

  // ---- The whole tree.

  /** A tree and its height; an empty tree has no root and height 0. */
  datatype Root = Empty | Root(tree: Tree, height: nat)

  ghost predicate Valid(l: Limits, r: Root) {
    r.Root? ==> r.height > 0 && Shaped(l, r.tree, r.height - 1) && exists lo, hi :: Ordered(r.tree, lo, hi)
  }

  ghost predicate Holds(r: Root, x: Key) {
    r.Root? && Has(r.tree, x)
  }

  function Size(r: Root): nat {
    if r.Empty? then 0 else Nodes(r.tree)
  }

  function HeightOf(r: Root): nat {
    if r.Empty? then 0 else r.height
  }

  /** Makes a new root above two halves. */
  function Grown(s: Halves, height: nat): Root {
    Root(Node([s.key], [s.left, s.right]), height + 1)
  }

  /** A full root is split by every insertion, except for a value that is in a root leaf already. */
  predicate MustSplit(l: Limits, r: Root, k: Key)
    requires Valid(l, r)
  {
    r.Root? && if r.height == 1 then |r.tree.values| == l.leafMax && !Contains(r.tree.values, k) else |r.tree.children| == l.childMax
  }

  /** A root without room for one more entry. */
  predicate RootFull(l: Limits, r: Root) {
    r.Root? && if r.tree.Leaf? then |r.tree.values| == l.leafMax else |r.tree.children| == l.childMax
  }

  lemma OnlyFullRootsSplit(l: Limits, r: Root, k: Key)
    requires Valid(l, r)
    ensures MustSplit(l, r, k) ==> RootFull(l, r)
    ensures RootFull(l, r) && !Holds(r, k) ==> MustSplit(l, r, k)
  {
    hide Ordered, LowerBound;
  }

  /** The tree after an insertion, whether the value is in it, and whether a half of the root was left behind. */
  datatype Outcome = Outcome(root: Root, done: bool, torn: bool)

  /**
  Inserts with `n` nodes to take. A root split needs two of them, and with only one the right half is
  made, but there is no new root to refer to it. Otherwise a full root is split before the descent, which
  then picks the half by the split key.
  */
  function TryInsert(l: Limits, r: Root, k: Key, n: nat): Outcome
    requires l.Ok() && Valid(l, r)
  {
    match r
    case Empty => if n == 0 then Outcome(r, false, false) else Outcome(Root(Leaf([k]), 1), true, false)
    case Root(t, height) =>
      if MustSplit(l, r, k) && n == 0 then Outcome(r, false, false)
      else if MustSplit(l, r, k) && n == 1 then Outcome(Root(LeftHalf(l, r, k), height), false, true)
      else if height == 1 then
        if Contains(t.values, k) then Outcome(r, true, false)
        else if |t.values| < l.leafMax then Outcome(Root(Leaf(InsertValue(t.values, k)), 1), true, false)
        else Outcome(Grown(SplitLeaf(t.values, k, true, true), 1), true, false)
      else if |t.children| == l.childMax then
        HalvesShaped(l, t, height - 1);
        GrownShaped(l, Split(t), height - 1);
        var a := InsertDown(l, Grown(Split(t), height).tree, height, k, true, true, n - 2);
        Outcome(Root(a.tree, height + 1), a.done, false)
      else
        var a := InsertDown(l, t, height - 1, k, true, true, n);
        Outcome(Root(a.tree, height), a.done, false)
  }

  /** What stays in the root's node when the root is split. */
  function LeftHalf(l: Limits, r: Root, k: Key): Tree
    requires l.Ok() && Valid(l, r) && MustSplit(l, r, k)
  {
    if r.height == 1 then SplitLeaf(r.tree.values, k, true, true).left else Split(r.tree).left
  }

  /** Inserts with as many nodes as can be needed. */
  function Insert(l: Limits, r: Root, k: Key): Root
    requires l.Ok() && Valid(l, r)
  {
    TryInsert(l, r, k, HeightOf(r) + 1).root
  }

  lemma GrownShaped(l: Limits, s: Halves, h: nat)
    requires l.Ok() && Shaped(l, s.left, h) && Shaped(l, s.right, h)
    ensures Shaped(l, Grown(s, h + 1).tree, h + 1)
  {}

  lemma {:induction false} GrownOrdered(s: Halves, lo: Key, hi: Key)
    requires Ordered(s.left, lo, s.key) && Ordered(s.right, s.key, hi) && lo < s.key <= hi
    ensures Ordered(Node([s.key], [s.left, s.right]), lo, hi)
  {
    var t := Node([s.key], [s.left, s.right]);
    forall i | 0 <= i < 2 ensures ChildOrdered(t.keys, t.children, lo, hi, i) {
    }
  }

  lemma {:induction false} GrownNodes(s: Halves, x: Key)
    ensures Nodes(Node([s.key], [s.left, s.right])) == 1 + Nodes(s.left) + Nodes(s.right)
    ensures Has(Node([s.key], [s.left, s.right]), x) <==> Has(s.left, x) || Has(s.right, x)
  {
    NodesConcat([s.left], [s.right]);
    assert [s.left, s.right] == [s.left] + [s.right] && [s.left][..0] == [] && [s.right][..0] == [];
    var t := Node([s.key], [s.left, s.right]);
    assert t.children[0] == s.left && t.children[1] == s.right;
  }

  /** Bounds may be widened. */
  lemma {:induction false} Wider(t: Tree, lo: Key, hi: Key, lo': Key, hi': Key)
    requires Ordered(t, lo, hi) && lo' <= lo && hi <= hi'
    ensures Ordered(t, lo', hi')
    decreases t
  {
    if t.Node? {
      forall i | 0 <= i < |t.children| ensures ChildOrdered(t.keys, t.children, lo', hi', i) {
        assert ChildOrdered(t.keys, t.children, lo, hi, i);
        Wider(t.children[i], Bound(t.keys, lo, hi, i), Bound(t.keys, lo, hi, i + 1), Bound(t.keys, lo', hi', i), Bound(t.keys, lo', hi', i + 1));
      }
    }
  }

  lemma ShapeOf(l: Limits, t: Tree, h: nat)
    requires Shaped(l, t, h)
    ensures if h == 0 then t.Leaf? && 0 < |t.values| <= l.leafMax
            else t.Node? && |t.children| == |t.keys| + 1 && 2 <= |t.children| <= l.childMax
  {}

  lemma LeafShaped(l: Limits, values: seq<Key>)
    requires 0 < |values| <= l.leafMax
    ensures Shaped(l, Leaf(values), 0) && Nodes(Leaf(values)) == 1 && forall x :: Has(Leaf(values), x) <==> x in values
  {}

  lemma OneValue(k: Key)
    ensures Ordered(Leaf([k]), k - 1.0, k)
  {}

  lemma InsertedSize(values: seq<Key>, k: Key)
    ensures |InsertValue(values, k)| == |values| + 1
  {}

  /** What an insertion promises when the root was not torn. */
  ghost predicate Complete(l: Limits, r: Root, k: Key, n: nat, o: Outcome) {
    && Valid(l, o.root) && !o.torn && Size(r) <= Size(o.root) <= Size(r) + HeightOf(r) + 1
    && HeightOf(r) <= HeightOf(o.root) <= HeightOf(r) + 1
    && (if o.done then Size(o.root) <= Size(r) + n else n <= HeightOf(r) && Size(o.root) == Size(r) + n)
    && forall x :: Holds(o.root, x) <==> Holds(r, x) || (o.done && x == k)
  }

  lemma {:induction false} InsertRootLeaf(l: Limits, t: Tree, k: Key, n: nat, lo: Key, hi: Key)
    requires l.Ok() && t.Leaf? && 0 < |t.values| <= l.leafMax && Ordered(t, lo, hi) && lo < k <= hi && Valid(l, Root(t, 1))
    requires MustSplit(l, Root(t, 1), k) ==> n != 1
    ensures Complete(l, Root(t, 1), k, n, TryInsert(l, Root(t, 1), k, n))
  {
    hide Ordered, Shaped, Has, Nodes, LowerBound, Contains, InsertValue, SplitLeaf, InsertDown, Split;
    var values := t.values;
    InsertedLeaf(values, k, lo, hi);
    LeafShaped(l, values);
    if !Contains(values, k) && |values| < l.leafMax {
      InsertedSize(values, k);
      LeafShaped(l, InsertValue(values, k));
      forall x ensures x in InsertValue(values, k) <==> x in values || x == k {
        InsertedMembers(values, k, x);
      }
    } else if !Contains(values, k) {
      InsertFullLeaf(l, values, k, lo, hi);
    }
  }

  lemma {:induction false} InsertFullLeaf(l: Limits, values: seq<Key>, k: Key, lo: Key, hi: Key)
    requires l.Ok() && |values| == l.leafMax && Ordered(Leaf(values), lo, hi) && lo < k <= hi && k !in values
    ensures var t := Grown(SplitLeaf(values, k, true, true), 1).tree;
            Shaped(l, t, 1) && Ordered(t, lo, hi) && Nodes(t) == 3 && forall x :: Has(t, x) <==> x in values || x == k
  {
    hide Ordered, Shaped, Has, Nodes, LowerBound, InsertValue, SplitLeaf;
    var s := SplitLeaf(values, k, true, true);
    SplitLeafOk(l, values, k, lo, hi, true, true);
    GrownShaped(l, s, 0);
    GrownOrdered(s, lo, hi);
    ShapeOf(l, s.left, 0);
    ShapeOf(l, s.right, 0);
    LeafShaped(l, s.left.values);
    LeafShaped(l, s.right.values);
    GrownNodes(s, 0.0);
    forall x ensures Has(Grown(s, 1).tree, x) <==> x in values || x == k {
      GrownNodes(s, x);
      SplitLeafHas(values, k, true, true, x);
    }
  }

  /** No child of a new root is full, so one split less is needed below it. */
  lemma {:induction false} InsertBelowRoot(l: Limits, t: Tree, h: nat, k: Key, n: nat, lo: Key, hi: Key)
    requires l.Ok() && h > 1 && t.Node? && Shaped(l, t, h) && |t.children| < l.childMax && Ordered(t, lo, hi) && lo < k <= hi
    requires forall c :: c in t.children ==> c.Node? && |c.children| < l.childMax
    ensures Inserted(l, t, h, k, lo, hi, InsertDown(l, t, h, k, true, true, n), n, h - 1)
  {
    hide Ordered, Shaped, Has, Nodes, LowerBound, Bound;
    var i := LowerBound(t.keys, k);
    DescendOk(t, lo, hi, k);
    ChildShaped(l, t, h, i);
    var child, first, last := t.children[i], i == 0, i == |t.keys|;
    assert child in t.children;
    InsertDownOk(l, child, h - 1, k, first, last, n, Bound(t.keys, lo, hi, i), Bound(t.keys, lo, hi, i + 1));
    ReplacedOk(l, t, h, i, k, lo, hi, InsertDown(l, child, h - 1, k, first, last, n), n, h - 1);
  }

  lemma {:induction false} InsertFullRoot(l: Limits, t: Tree, height: nat, k: Key, n: nat, lo: Key, hi: Key)
    requires l.Ok() && height > 1 && t.Node? && Shaped(l, t, height - 1) && |t.children| == l.childMax && |t.children| == |t.keys| + 1
    requires Ordered(t, lo, hi) && lo < k <= hi && Valid(l, Root(t, height)) && n >= 2
    ensures Complete(l, Root(t, height), k, n, TryInsert(l, Root(t, height), k, n))
  {
    hide Ordered, Shaped, Has, Nodes, LowerBound, InsertDown, Split;
    var s := Split(t);
    SplitOk(l, t, height - 1, lo, hi);
    SplitNodes(t);
    GrownShaped(l, s, height - 1);
    GrownOrdered(s, lo, hi);
    GrownNodes(s, 0.0);
    var root := Grown(s, height).tree;
    ShapeOf(l, s.left, height - 1);
    ShapeOf(l, s.right, height - 1);
    InsertBelowRoot(l, root, height, k, n - 2, lo, hi);
    forall x ensures Has(root, x) <==> Has(t, x) {
      GrownNodes(s, x);
      SplitHas(t, x);
    }
  }

  /** Bounds that have room for one more value. */
  lemma {:induction false} Bounds(l: Limits, r: Root, k: Key) returns (lo: Key, hi: Key)
    requires Valid(l, r) && r.Root?
    ensures Ordered(r.tree, lo, hi) && lo < k <= hi
  {
    hide Ordered, Shaped;
    var lo0, hi0 :| Ordered(r.tree, lo0, hi0);
    lo, hi := if lo0 < k then lo0 else k - 1.0, if k <= hi0 then hi0 else k;
    Wider(r.tree, lo0, hi0, lo, hi);
  }

  /**
  Unless the root must be split and there is exactly one node, an insertion keeps the tree valid and
  either adds exactly the value or changes no value at all. It fails only when all nodes are used, and
  it takes at most one node per level and one more.
  */
  lemma {:induction false} TryInsertOk(l: Limits, r: Root, k: Key, n: nat)
    requires l.Ok() && Valid(l, r) && (MustSplit(l, r, k) ==> n != 1)
    ensures Complete(l, r, k, n, TryInsert(l, r, k, n))
  {
    hide Ordered, Shaped, Has, Nodes, LowerBound, Contains, InsertValue, SplitLeaf, Split, InsertDown;
    if r.Empty? {
      LeafShaped(l, [k]);
      OneValue(k);
      return;
    }
    var lo, hi := Bounds(l, r, k);
    ShapeOf(l, r.tree, r.height - 1);
    if r.height == 1 {
      InsertRootLeaf(l, r.tree, k, n, lo, hi);
    } else if |r.tree.children| < l.childMax {
      InsertDownOk(l, r.tree, r.height - 1, k, true, true, n, lo, hi);
    } else if n >= 2 {
      InsertFullRoot(l, r.tree, r.height, k, n, lo, hi);
    }
  }

  /**
  With enough nodes, insertion keeps the tree valid, adds exactly the value, grows by at most one level,
  and takes at most one node per level and one more.
  */
  lemma {:induction false} InsertOk(l: Limits, r: Root, k: Key)
    requires l.Ok() && Valid(l, r)
    ensures Valid(l, Insert(l, r, k)) && Size(r) <= Size(Insert(l, r, k)) <= Size(r) + HeightOf(r) + 1
    ensures HeightOf(r) <= HeightOf(Insert(l, r, k)) <= HeightOf(r) + 1
    ensures forall x :: Holds(Insert(l, r, k), x) <==> Holds(r, x) || x == k
  {
    hide TryInsert, Shaped, Ordered, Holds, Size;
    TryInsertOk(l, r, k, HeightOf(r) + 1);
  }

  // ---- Too few nodes.

  /** More nodes do not change an insertion that has enough, and those that it needs are not fewer. */
  lemma {:induction false} MoreNodes(l: Limits, t: Tree, h: nat, k: Key, leftmost: bool, rightmost: bool, n: nat, n': nat, lo: Key, hi: Key)
    requires l.Ok() && h > 0 && Shaped(l, t, h) && t.Node? && |t.children| < l.childMax && Ordered(t, lo, hi) && lo < k <= hi && n <= n'
    ensures var a, b := InsertDown(l, t, h, k, leftmost, rightmost, n), InsertDown(l, t, h, k, leftmost, rightmost, n');
            if a.done then b == a else b.done ==> Nodes(b.tree) > Nodes(t) + n
    decreases h, 1
  {
    hide Ordered, Shaped, Has, Nodes, LowerBound, Contains, InsertValue, Split, SplitLeaf, Bound;
    var i := LowerBound(t.keys, k);
    DescendOk(t, lo, hi, k);
    ChildShaped(l, t, h, i);
    var child, a, b := t.children[i], Bound(t.keys, lo, hi, i), Bound(t.keys, lo, hi, i + 1);
    var first, last := leftmost && i == 0, rightmost && i == |t.keys|;
    if h == 1 {
      FullLeafNodes(l, t, i, k, first, last, lo, hi);
    } else if |child.children| < l.childMax {
      MoreNodes(l, child, h - 1, k, first, last, n, n', a, b);
      InsertDownOk(l, child, h - 1, k, first, last, n', a, b);
      WithChildOk(l, t, h, i, InsertDown(l, child, h - 1, k, first, last, n').tree, lo, hi);
    } else if n > 0 {
      MoreNodesSplit(l, t, h, i, k, first, last, n, n', lo, hi);
    } else if n' > 0 {
      InsertSplitOk(l, t, h, i, k, first, last, n' - 1, lo, hi);
    }
  }

  lemma {:induction false} FullLeafNodes(l: Limits, t: Tree, i: nat, k: Key, first: bool, last: bool, lo: Key, hi: Key)
    requires l.Ok() && Shaped(l, t, 1) && t.Node? && |t.children| < l.childMax && i < |t.children| == |t.keys| + 1 && t.children[i].Leaf?
    requires var a, b := Bound(t.keys, lo, hi, i), Bound(t.keys, lo, hi, i + 1); a < k <= b && Ordered(t.children[i], a, b)
    ensures |t.children[i].values| == l.leafMax && !Contains(t.children[i].values, k) ==>
              Nodes(WithSplit(t, i, SplitLeaf(t.children[i].values, k, first, last))) == Nodes(t) + 1
  {
    hide Ordered, Shaped, Has, Nodes, LowerBound, Contains, InsertValue, SplitLeaf, Bound;
    var values, a, b := t.children[i].values, Bound(t.keys, lo, hi, i), Bound(t.keys, lo, hi, i + 1);
    InsertedLeaf(values, k, a, b);
    if |values| == l.leafMax && !Contains(values, k) {
      var s := SplitLeaf(values, k, first, last);
      SplitLeafOk(l, values, k, a, b, first, last);
      WithSplitShaped(l, t, 1, i, s);
      ShapeOf(l, s.left, 0);
      ShapeOf(l, s.right, 0);
      LeafShaped(l, s.left.values);
      LeafShaped(l, s.right.values);
      LeafShaped(l, values);
    }
  }

  lemma {:induction false} MoreNodesSplit(l: Limits, t: Tree, h: nat, i: nat, k: Key, first: bool, last: bool, n: nat, n': nat, lo: Key, hi: Key)
    requires l.Ok() && h > 1 && Shaped(l, t, h) && t.Node? && i < |t.children| < l.childMax && |t.children| == |t.keys| + 1 && Ordered(t, lo, hi)
    requires var c := t.children[i]; c.Node? && Shaped(l, c, h - 1) && |c.children| == l.childMax && |c.children| == |c.keys| + 1
    requires var a, b := Bound(t.keys, lo, hi, i), Bound(t.keys, lo, hi, i + 1); a < k <= b && Ordered(t.children[i], a, b)
    requires 0 < n <= n'
    ensures var a, b := InsertSplit(l, t, h, i, k, first, last, n - 1), InsertSplit(l, t, h, i, k, first, last, n' - 1);
            if a.done then b == a else b.done ==> Nodes(b.tree) > Nodes(t) + n
    decreases h, 0
  {
    hide Ordered, Shaped, Has, Nodes, LowerBound, Bound;
    var c, a, b := t.children[i], Bound(t.keys, lo, hi, i), Bound(t.keys, lo, hi, i + 1);
    var s := Split(c);
    SplitOk(l, c, h - 1, a, b);
    KeysOf(c, a, b);
    HalfOf(c, k);
    Inhabited(l, s.right, h - 1, s.key, b);
    if k <= s.key {
      MoreNodes(l, s.left, h - 1, k, first, false, n - 1, n' - 1, a, s.key);
      InsertDownOk(l, s.left, h - 1, k, first, false, n' - 1, a, s.key);
      var r := InsertDown(l, s.left, h - 1, k, first, false, n' - 1);
      HalvesOk(l, t, h, i, k, lo, hi, s, s.(left := r.tree), n' - 1, r.done);
    } else {
      MoreNodes(l, s.right, h - 1, k, false, last, n - 1, n' - 1, s.key, b);
      InsertDownOk(l, s.right, h - 1, k, false, last, n' - 1, s.key, b);
      var r := InsertDown(l, s.right, h - 1, k, false, last, n' - 1);
      HalvesOk(l, t, h, i, k, lo, hi, s, s.(right := r.tree), n' - 1, r.done);
    }
  }

  /** With `m` nodes the insertion succeeds, and with `n` exactly when it needs no more. */
  lemma {:induction false} EnoughBelow(l: Limits, t: Tree, h: nat, k: Key, n: nat, m: nat, lo: Key, hi: Key)
    requires l.Ok() && h > 0 && Shaped(l, t, h) && t.Node? && |t.children| < l.childMax && Ordered(t, lo, hi) && lo < k <= hi
    requires InsertDown(l, t, h, k, true, true, m).done
    ensures var a, b := InsertDown(l, t, h, k, true, true, n), InsertDown(l, t, h, k, true, true, m);
            (a.done <==> Nodes(b.tree) <= Nodes(t) + n) && (a.done ==> a == b) && Nodes(t) <= Nodes(b.tree)
  {
    hide Ordered, Shaped, Has, Nodes, InsertDown;
    InsertDownOk(l, t, h, k, true, true, n, lo, hi);
    InsertDownOk(l, t, h, k, true, true, m, lo, hi);
    if n <= m {
      MoreNodes(l, t, h, k, true, true, n, m, lo, hi);
    } else {
      MoreNodes(l, t, h, k, true, true, m, n, lo, hi);
    }
  }

  /** The insertion succeeds exactly when there are as many nodes as the tree grows by. */
  lemma {:induction false} Enough(l: Limits, r: Root, k: Key, n: nat)
    requires l.Ok() && Valid(l, r)
    ensures var o := TryInsert(l, r, k, n);
            && (o.done <==> Size(Insert(l, r, k)) <= Size(r) + n) && (o.done ==> o.root == Insert(l, r, k))
            && (o.torn <==> MustSplit(l, r, k) && n == 1) && (o.torn ==> !o.done)
  {
    hide Ordered, Shaped, Has, Nodes, LowerBound, Contains, InsertValue, SplitLeaf, Split, InsertDown;
    if r.Empty? {
      LeafShaped(l, [k]);
      return;
    }
    var lo, hi := Bounds(l, r, k);
    ShapeOf(l, r.tree, r.height - 1);
    if r.height == 1 {
      EnoughInLeaf(l, r.tree.values, k, lo, hi);
    } else if |r.tree.children| < l.childMax {
      InsertDownOk(l, r.tree, r.height - 1, k, true, true, r.height + 1, lo, hi);
      EnoughBelow(l, r.tree, r.height - 1, k, n, r.height + 1, lo, hi);
    } else {
      EnoughBelowRoot(l, r.tree, r.height, k, n, lo, hi);
    }
  }

  lemma {:induction false} EnoughInLeaf(l: Limits, values: seq<Key>, k: Key, lo: Key, hi: Key)
    requires l.Ok() && 0 < |values| <= l.leafMax && Ordered(Leaf(values), lo, hi) && lo < k <= hi
    ensures Nodes(Leaf(values)) == Nodes(Leaf(InsertValue(values, k))) == 1
    ensures !Contains(values, k) && |values| == l.leafMax ==> Nodes(Grown(SplitLeaf(values, k, true, true), 1).tree) == 3
  {
    hide Ordered, Shaped, Has, LowerBound, Contains, InsertValue, SplitLeaf;
    InsertedLeaf(values, k, lo, hi);
    if !Contains(values, k) && |values| == l.leafMax {
      InsertFullLeaf(l, values, k, lo, hi);
    }
  }

  lemma {:induction false} EnoughBelowRoot(l: Limits, t: Tree, height: nat, k: Key, n: nat, lo: Key, hi: Key)
    requires l.Ok() && height > 1 && t.Node? && Shaped(l, t, height - 1) && |t.children| == l.childMax && |t.children| == |t.keys| + 1
    requires Ordered(t, lo, hi) && lo < k <= hi && Valid(l, Root(t, height))
    ensures var o, r := TryInsert(l, Root(t, height), k, n), TryInsert(l, Root(t, height), k, height + 1);
            && r.done && (o.done <==> Size(r.root) <= Nodes(t) + n) && (o.done ==> o == r) && (o.torn <==> n == 1)
  {
    hide Ordered, Shaped, Has, Nodes, InsertDown, Split;
    var s := Split(t);
    SplitOk(l, t, height - 1, lo, hi);
    SplitNodes(t);
    GrownShaped(l, s, height - 1);
    GrownOrdered(s, lo, hi);
    GrownNodes(s, 0.0);
    InsertFullRoot(l, t, height, k, height + 1, lo, hi);
    EnoughBelow(l, Grown(s, height).tree, height, k, if n >= 2 then n - 2 else 0, height - 1, lo, hi);
  }

  /** The largest value that stays reachable when the root is torn. */
  function TearKey(l: Limits, r: Root, k: Key): Key
    requires l.Ok() && Valid(l, r) && MustSplit(l, r, k)
  {
    if r.height == 1 then SplitLeaf(r.tree.values, k, true, true).key else Split(r.tree).key
  }

  /**
  When the root is torn, the values above a key are lost: the upper half of an internal root, or the
  largest of the values of a root leaf and the new one. The new value is in the tree if there is room in
  the root leaf for it, although the insertion failed.
  */
  lemma {:induction false} Torn(l: Limits, r: Root, k: Key)
    requires l.Ok() && Valid(l, r) && MustSplit(l, r, k)
    ensures var o := TryInsert(l, r, k, 1);
            && Valid(l, o.root) && HeightOf(o.root) == HeightOf(r) && Size(o.root) <= Size(r)
            && forall x :: Holds(o.root, x) <==> x <= TearKey(l, r, k) && (Holds(r, x) || (r.height == 1 && x == k))
  {
    hide Ordered, Shaped, Has, Nodes, LowerBound, Contains, InsertValue, SplitLeaf, Split, InsertDown;
    var lo, hi := Bounds(l, r, k);
    ShapeOf(l, r.tree, r.height - 1);
    if r.height == 1 {
      TornLeaf(l, r.tree.values, k, lo, hi);
    } else {
      TornNode(l, r.tree, r.height - 1, lo, hi);
    }
  }

  lemma {:induction false} TornLeaf(l: Limits, values: seq<Key>, k: Key, lo: Key, hi: Key)
    requires l.Ok() && |values| == l.leafMax && Ordered(Leaf(values), lo, hi) && lo < k <= hi && !Contains(values, k)
    ensures var s := SplitLeaf(values, k, true, true);
            && Shaped(l, s.left, 0) && Ordered(s.left, lo, s.key) && Nodes(s.left) == Nodes(Leaf(values))
            && forall x :: Has(s.left, x) <==> x <= s.key && (Has(Leaf(values), x) || x == k)
  {
    hide Ordered, Shaped, Has, LowerBound, Contains, InsertValue;
    var s := SplitLeaf(values, k, true, true);
    InsertedLeaf(values, k, lo, hi);
    LeafShaped(l, values);
    SplitLeafOk(l, values, k, lo, hi, true, true);
    forall x ensures Has(s.left, x) <==> x <= s.key && (x in values || x == k) {
      SplitLeafHas(values, k, true, true, x);
      Sides(s, lo, hi, x);
    }
  }

  lemma {:induction false} TornNode(l: Limits, t: Tree, h: nat, lo: Key, hi: Key)
    requires l.Ok() && h > 0 && Shaped(l, t, h) && Ordered(t, lo, hi) && t.Node? && |t.children| == l.childMax == |t.keys| + 1
    ensures var s := Split(t);
            && Shaped(l, s.left, h) && Ordered(s.left, lo, s.key) && Nodes(s.left) <= Nodes(t)
            && forall x :: Has(s.left, x) <==> x <= s.key && Has(t, x)
  {
    hide Ordered, Shaped, Has, Split;
    SplitOk(l, t, h, lo, hi);
    SplitNodes(t);
    forall x ensures Has(Split(t).left, x) <==> x <= Split(t).key && Has(t, x) {
      SplitHas(t, x);
      Sides(Split(t), lo, hi, x);
    }
  }

  lemma {:induction false} Sides(s: Halves, lo: Key, hi: Key, x: Key)
    requires Ordered(s.left, lo, s.key) && Ordered(s.right, s.key, hi)
    ensures (Has(s.left, x) ==> x <= s.key) && (Has(s.right, x) ==> s.key < x)
  {
    hide Ordered, Has;
    if Has(s.left, x) {
      Within(s.left, lo, s.key, x);
    }
    if Has(s.right, x) {
      Within(s.right, s.key, hi, x);
    }
  }

  lemma {:induction false} SomeValue(l: Limits, t: Tree, h: nat) returns (x: Key)
    requires Shaped(l, t, h)
    ensures Has(t, x)
    decreases h
  {
    if h == 0 {
      x := t.values[0];
    } else {
      x := SomeValue(l, t.children[0], h - 1);
    }
  }

  /** Whether a torn root loses values: always, except for a new largest value of a root leaf. */
  predicate Loses(l: Limits, r: Root, k: Key)
    requires Valid(l, r)
  {
    MustSplit(l, r, k) && (r.height == 1 ==> 0 < |r.tree.values| && k < r.tree.values[|r.tree.values| - 1])
  }

  /**
  A failed insertion keeps exactly the old values, unless there was one node for a root that must be
  split and the value is not a new largest one of a root leaf.
  */
  lemma {:induction false} FailureKeepsValues(l: Limits, r: Root, k: Key, n: nat)
    requires l.Ok() && Valid(l, r) && !TryInsert(l, r, k, n).done
    ensures (forall x :: Holds(TryInsert(l, r, k, n).root, x) <==> Holds(r, x)) <==> !(Loses(l, r, k) && n == 1)
  {
    hide Ordered, Shaped, Has, Nodes, LowerBound, Contains, InsertValue, SplitLeaf, Split, InsertDown, TryInsert;
    Enough(l, r, k, n);
    if !MustSplit(l, r, k) || n != 1 {
      TryInsertOk(l, r, k, n);
      return;
    }
    Torn(l, r, k);
    ShapeOf(l, r.tree, r.height - 1);
    var lo, hi := Bounds(l, r, k);
    if r.height > 1 {
      var x := LostValue(l, r.tree, r.height - 1, lo, hi);
      assert Holds(r, x);
    } else {
      assert r.tree == Leaf(r.tree.values);
      LostFromLeaf(l, r.tree.values, k, lo, hi);
      assert Holds(r, r.tree.values[|r.tree.values| - 1]);
    }
  }

  /** A failed insertion leaves out the new value or loses an old one. */
  lemma {:induction false} FailureLacksValue(l: Limits, r: Root, k: Key, n: nat) returns (x: Key)
    requires l.Ok() && Valid(l, r) && !Holds(r, k) && !TryInsert(l, r, k, n).done
    ensures (Holds(r, x) || x == k) && !Holds(TryInsert(l, r, k, n).root, x)
  {
    hide Ordered, Shaped, Has, Nodes, LowerBound, Contains, InsertValue, SplitLeaf, Split, InsertDown, TryInsert;
    x := k;
    Enough(l, r, k, n);
    if !MustSplit(l, r, k) || n != 1 {
      TryInsertOk(l, r, k, n);
      return;
    }
    Torn(l, r, k);
    if r.height == 1 {
      var lo, hi := Bounds(l, r, k);
      ShapeOf(l, r.tree, 0);
      assert r.tree == Leaf(r.tree.values);
      LostFromLeaf(l, r.tree.values, k, lo, hi);
      var last := r.tree.values[|r.tree.values| - 1];
      x := if k < last then last else k;
    }
  }

  lemma {:induction false} LostValue(l: Limits, t: Tree, h: nat, lo: Key, hi: Key) returns (x: Key)
    requires l.Ok() && h > 0 && Shaped(l, t, h) && Ordered(t, lo, hi) && t.Node? && |t.children| == l.childMax == |t.keys| + 1
    ensures Has(t, x) && Split(t).key < x
  {
    hide Ordered, Shaped, Has, Split;
    SplitOk(l, t, h, lo, hi);
    x := SomeValue(l, Split(t).right, h);
    SplitHas(t, x);
    Sides(Split(t), lo, hi, x);
  }

  lemma {:induction false} LostFromLeaf(l: Limits, values: seq<Key>, k: Key, lo: Key, hi: Key)
    requires l.Ok() && |values| == l.leafMax && Ordered(Leaf(values), lo, hi) && lo < k <= hi && !Contains(values, k)
    ensures var last, key := values[|values| - 1], SplitLeaf(values, k, true, true).key;
            && k != last && Has(Leaf(values), last) && (last <= key <==> last < k) && (k <= key <==> k < last)
            && forall x :: Has(Leaf(values), x) ==> x <= last
  {
    hide LowerBound;
    InsertedLeaf(values, k, lo, hi);
    var last, i := values[|values| - 1], LowerBound(values, k);
    assert last in values && (i < |values| ==> values[i] != k);
    assert i < |values| <==> k < last;
  }

  /** A torn root leaf has the new value instead of its largest one. */
  lemma {:induction false} TornRootLeaf(l: Limits, r: Root, k: Key)
    requires l.Ok() && Valid(l, r) && MustSplit(l, r, k) && r.height == 1 && Loses(l, r, k)
    ensures Holds(r, r.tree.values[|r.tree.values| - 1])
    ensures forall x :: Holds(TryInsert(l, r, k, 1).root, x) <==> (Holds(r, x) || x == k) && x < r.tree.values[|r.tree.values| - 1]
    ensures forall x :: Holds(r, x) ==> x <= r.tree.values[|r.tree.values| - 1]
  {
    hide Ordered, Shaped, Has, Nodes, LowerBound, Contains, InsertValue, SplitLeaf, Split, InsertDown, TryInsert;
    Torn(l, r, k);
    var lo, hi := Bounds(l, r, k);
    ShapeOf(l, r.tree, 0);
    var values := r.tree.values;
    assert r.tree == Leaf(values);
    LostFromLeaf(l, values, k, lo, hi);
    CutBelowLast(l, values, k, lo, hi);
  }

  lemma {:induction false} CutBelowLast(l: Limits, values: seq<Key>, k: Key, lo: Key, hi: Key)
    requires l.Ok() && |values| == l.leafMax && Ordered(Leaf(values), lo, hi) && lo < k <= hi && !Contains(values, k) && k < values[|values| - 1]
    ensures forall x :: Has(Leaf(values), x) || x == k ==> (x <= SplitLeaf(values, k, true, true).key <==> x < values[|values| - 1])
  {
    hide LowerBound;
    var n, i, key := |values|, LowerBound(values, k), SplitLeaf(values, k, true, true).key;
    assert i < n && key == if i == n - 1 then k else values[n - 2];
    forall x | x in values ensures x <= key <==> x < values[n - 1] {
      var p :| 0 <= p < n && values[p] == x;
      assert i == n - 1 && p < i ==> values[p] < k;
    }
  }

  /** A root leaf with the values 1 and 3 that takes 2 with one node for a new leaf and none for a root: 3 is gone. */
  lemma LostEntry()
    ensures var l, r := Limits(2, 4), Root(Leaf([1.0, 3.0]), 1);
            && Valid(l, r) && MustSplit(l, r, 2.0) && !TryInsert(l, r, 2.0, 1).done
            && Holds(r, 3.0) && !Holds(TryInsert(l, r, 2.0, 1).root, 3.0) && Holds(TryInsert(l, r, 2.0, 1).root, 2.0)
  {
    hide InsertDown, Split;
    var l, r := Limits(2, 4), Root(Leaf([1.0, 3.0]), 1);
    assert Ordered(r.tree, 0.0, 3.0);
    assert InsertValue([1.0, 3.0], 2.0) == [1.0, 2.0, 3.0] by {
      assert LowerBound([1.0, 3.0], 2.0) == 1;
    }
    assert TryInsert(l, r, 2.0, 1).root.tree == Leaf([1.0, 2.0]);
  }

  // ---- Searching the tree.

  /** Descends to one leaf and looks there. */
  function Find(ghost l: Limits, t: Tree, h: nat, k: Key): bool
    requires Shaped(l, t, h)
    decreases h
  {
    if h == 0 then Contains(t.values, k)
    else
      var i := LowerBound(t.keys, k);
      ChildShaped(l, t, h, i);
      Find(l, t.children[i], h - 1, k)
  }

  /** One path from the root decides whether the value is anywhere in the tree. */
  lemma {:induction false} FindOk(l: Limits, t: Tree, h: nat, k: Key, lo: Key, hi: Key)
    requires Shaped(l, t, h) && Ordered(t, lo, hi) && lo < k <= hi
    ensures Find(l, t, h, k) <==> Has(t, k)
    decreases h
  {
    hide Shaped, Ordered, Has, LowerBound, Contains, Bound;
    ShapeOf(l, t, h);
    if h == 0 {
      InsertedLeaf(t.values, k, lo, hi);
      LeafShaped(l, t.values);
    } else {
      var i := LowerBound(t.keys, k);
      SearchFindsIt(t, lo, hi, k);
      DescendOk(t, lo, hi, k);
      ChildShaped(l, t, h, i);
      FindOk(l, t.children[i], h - 1, k, Bound(t.keys, lo, hi, i), Bound(t.keys, lo, hi, i + 1));
    }
  }

  function Lookup(l: Limits, r: Root, k: Key): bool
    requires Valid(l, r)
  {
    r.Root? && Find(l, r.tree, r.height - 1, k)
  }

  /** Searching the whole tree. */
  lemma {:induction false} LookupOk(l: Limits, r: Root, k: Key)
    requires Valid(l, r)
    ensures Lookup(l, r, k) <==> Holds(r, k)
  {
    hide Shaped, Ordered, Has, Find;
    if r.Root? {
      var lo, hi := Bounds(l, r, k);
      FindOk(l, r.tree, r.height - 1, k, lo, hi);
    }
  }
}
