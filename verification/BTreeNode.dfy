/**
The nodes of a B+ tree as they are changed in place: arrays of values, or of keys and children, of which
the first few are in use. What the operations do to the used part is what the operations on trees do.
*/
module BTreeNodes {
  import opened BTree

  /** `n` elements of `src` over those of `dst`. */
  function Copied<T>(src: seq<T>, from: nat, dst: seq<T>, to: nat, n: nat): (r: seq<T>)
    requires from + n <= |src| && to + n <= |dst|
    ensures |r| == |dst|
  {
    dst[..to] + src[from..from + n] + dst[to + n..]
  }

  /** Copies a range; source and destination may overlap. */
  method Move<T>(src: array<T>, from: nat, dst: array<T>, to: nat, n: nat)
    requires from + n <= src.Length && to + n <= dst.Length
    modifies dst
    ensures dst[..] == Copied(old(src[..]), from, old(dst[..]), to, n)
  {
    forall i | to <= i < to + n {
      dst[i] := src[i - to + from];
    }
  }

  method Put<T>(a: array<T>, i: nat, x: T)
    requires i < a.Length
    modifies a
    ensures a[..] == old(a[..])[i := x]
  {
    a[i] := x;
  }

  lemma Shifted<T>(s: seq<T>, size: nat, index: nat, value: T)
    requires index <= size < |s|
    ensures Copied(s, index, s, index + 1, size - index)[index := value][..size + 1] == InsertedAt(s[..size], index, value)
  {
    var s' := Copied(s, index, s, index + 1, size - index)[index := value];
    forall i | 0 <= i <= size ensures s'[i] == InsertedAt(s[..size], index, value)[i] {
    }
  }

  class LeafNode {
    const data: array<Key>
    var size: nat

    ghost predicate Valid()
      reads this
    {
      size <= data.Length
    }

    ghost function Values(): seq<Key>
      requires Valid()
      reads this, data
    {
      data[..size]
    }

    constructor (capacity: nat)
      ensures Valid() && size == 0 && data.Length == capacity && fresh(data)
    {
      data := new Key[capacity];
      size := 0;
    }

    method InsertNonfull(index: nat, value: Key)
      requires Valid() && index <= size < data.Length
      modifies `size, data
      ensures Valid() && Values() == InsertedAt(old(Values()), index, value)
    {
      hide Copied, InsertedAt;
      Shifted(data[..], size, index, value);
      assert data[..size] == data[..][..size];
      Move(data, index, data, index + 1, size - index);
      Put(data, index, value);
      assert data[..size + 1] == data[..][..size + 1];
      size := size + 1;
    }

    /** Splits the full leaf: `mid` values stay here, the others are in `right`. */
    method InsertFull(index: nat, value: Key, mid: nat, right: LeafNode)
      requires Valid() && right.Valid() && right.data != data && right.data.Length == data.Length
      requires size == data.Length && right.size == 0 && index <= size && 0 < mid <= size
      modifies `size, data, right`size, right.data
      ensures Valid() && right.Valid() && size == mid
      ensures Values() + right.Values() == InsertedAt(old(Values()), index, value)
    {
      SequenceInsert(data, right.data, size, mid, index, value);
      right.size := size + 1 - mid;
      size := mid;
    }
  }

  /** Inserts into `left` and moves what exceeds `mid` values to `right`, without room for one more value. */
  method SequenceInsert(left: array<Key>, right: array<Key>, count: nat, mid: nat, index: nat, value: Key)
    requires left != right && 0 < mid <= count <= left.Length && index <= count && count + 1 - mid <= right.Length
    modifies left, right
    ensures left[..mid] == InsertedAt(old(left[..count]), index, value)[..mid]
    ensures right[..count + 1 - mid] == InsertedAt(old(left[..count]), index, value)[mid..]
  {
    hide Copied, InsertedAt;
    ghost var l, r := left[..], right[..];
    assert left[..count] == l[..count];
    if index < mid {
      StaysLeft(l, r, count, mid, index, value);
      Move(left, mid - 1, right, 0, count - mid + 1);
      Move(left, index, left, index + 1, mid - 1 - index);
      Put(left, index, value);
    } else {
      GoesRight(l, r, count, mid, index, value);
      var to := index - mid;
      Move(left, mid, right, 0, to);
      Put(right, to, value);
      Move(left, mid + to, right, to + 1, count - mid - to);
    }
    assert left[..mid] == left[..][..mid] && right[..count + 1 - mid] == right[..][..count + 1 - mid];
  }

  lemma StaysLeft(l: seq<Key>, r: seq<Key>, count: nat, mid: nat, index: nat, value: Key)
    requires index < mid <= count <= |l| && count + 1 - mid <= |r|
    ensures Copied(l, index, l, index + 1, mid - 1 - index)[index := value][..mid] == InsertedAt(l[..count], index, value)[..mid]
    ensures Copied(l, mid - 1, r, 0, count - mid + 1)[..count + 1 - mid] == InsertedAt(l[..count], index, value)[mid..]
  {
    var l', all := Copied(l, index, l, index + 1, mid - 1 - index)[index := value], InsertedAt(l[..count], index, value);
    forall i | 0 <= i < mid ensures l'[i] == all[i] {
    }
    assert l'[..mid] == all[..mid];
  }

  lemma GoesRight(l: seq<Key>, r: seq<Key>, count: nat, mid: nat, index: nat, value: Key)
    requires 0 < mid <= index <= count <= |l| && count + 1 - mid <= |r|
    ensures l[..mid] == InsertedAt(l[..count], index, value)[..mid]
    ensures var to := index - mid;
            Copied(l, index, Copied(l, mid, r, 0, to)[to := value], to + 1, count - index)[..count + 1 - mid]
            == InsertedAt(l[..count], index, value)[mid..]
  {
    var to, all := index - mid, InsertedAt(l[..count], index, value);
    var r' := Copied(l, mid, r, 0, to)[to := value];
    var r'' := Copied(l, index, r', to + 1, count - index);
    forall i | 0 <= i < mid ensures l[i] == all[i] {
    }
    forall i | 0 <= i < count + 1 - mid ensures r''[i] == all[mid + i] {
    }
    assert l[..mid] == all[..mid];
  }

  /** `count` children, and a key between each two of them. */
  class InternalNode {
    const keyData: array<Key>
    const childData: array<int>
    var count: nat

    ghost predicate Valid()
      reads this
    {
      count <= childData.Length == keyData.Length + 1
    }

    ghost function Keys(): seq<Key>
      requires Valid() && count > 0
      reads this, keyData
    {
      keyData[..count - 1]
    }

    ghost function Children(): seq<int>
      requires Valid()
      reads this, childData
    {
      childData[..count]
    }

    constructor (maxChildren: nat)
      requires maxChildren > 1
      ensures Valid() && count == 0 && childData.Length == maxChildren && fresh(keyData) && fresh(childData)
    {
      keyData := new Key[maxChildren - 1];
      childData := new int[maxChildren];
      count := 0;
    }

    /** The node at `index - 1` was split; `child` is its right half. */
    method InsertSplitResult(index: nat, key: Key, child: int)
      requires Valid() && 1 <= index <= count < childData.Length
      modifies `count, keyData, childData
      ensures Valid() && count == old(count) + 1
      ensures Keys() == InsertedAt(old(Keys()), index - 1, key) && Children() == InsertedAt(old(Children()), index, child)
    {
      hide Copied, InsertedAt;
      Shifted(keyData[..], count - 1, index - 1, key);
      Shifted(childData[..], count, index, child);
      assert Keys() == keyData[..][..count - 1] && Children() == childData[..][..count];
      Move(keyData, index - 1, keyData, index, (count - 1) - (index - 1));
      Put(keyData, index - 1, key);
      Move(childData, index, childData, index + 1, count - index);
      Put(childData, index, child);
      count := count + 1;
      assert Keys() == keyData[..][..count - 1] && Children() == childData[..][..count];
    }

    /** Moves the upper half to `right`; the key between the halves is in neither of them. */
    method Split(right: InternalNode) returns (key: Key)
      requires Valid() && right.Valid() && right != this && right.keyData != keyData && right.childData != childData
      requires right.childData.Length == childData.Length == count >= 4 && right.count == 0
      modifies `count, right`count, right.keyData, right.childData
      ensures Valid() && right.Valid() && count > 0 && right.count > 0
      ensures count == (old(count) + 1) / 2 && key == old(Keys())[count - 1]
      ensures Keys() == old(Keys())[..count - 1] && right.Keys() == old(Keys())[count..]
      ensures Children() == old(Children())[..count] && right.Children() == old(Children())[count..]
    {
      hide Copied;
      var m := (count + 1) / 2;
      var n := count - m;
      Moved(keyData[..], m, right.keyData[..], n - 1);
      Moved(childData[..], m, right.childData[..], n);
      Move(keyData, m, right.keyData, 0, n - 1);
      Move(childData, m, right.childData, 0, n);
      key := keyData[m - 1];
      count, right.count := m, n;
      assert right.Keys() == right.keyData[..][..n - 1] && right.Children() == right.childData[..][..n];
    }
  }

  lemma Moved<T>(src: seq<T>, from: nat, dst: seq<T>, n: nat)
    requires from + n <= |src| && n <= |dst|
    ensures Copied(src, from, dst, 0, n)[..n] == src[from..from + n]
  {}

  // ---- Nodes that refer to each other by number.

  ghost function Subtrees(children: seq<int>, store: map<int, Tree>): (r: seq<Tree>)
    requires forall i :: 0 <= i < |children| ==> children[i] in store
    ensures |r| == |children| && forall i :: 0 <= i < |r| ==> r[i] == store[children[i]]
  {
    seq(|children|, i requires 0 <= i < |children| => store[children[i]])
  }

  /** Splitting a child and entering its right half at the parent replaces one subtree by two. */
  lemma SplitStored(keys: seq<Key>, children: seq<int>, store: map<int, Tree>, i: nat, s: Halves, added: int)
    requires i < |children| == |keys| + 1 && added !in store
    requires forall j :: 0 <= j < |children| ==> children[j] in store && (j != i ==> children[j] != children[i])
    ensures var store' := store[children[i] := s.left][added := s.right];
            Node(InsertedAt(keys, i, s.key), Subtrees(InsertedAt(children, i + 1, added), store'))
            == WithSplit(Node(keys, Subtrees(children, store)), i, s)
  {
    var store' := store[children[i] := s.left][added := s.right];
    var a, b := Subtrees(InsertedAt(children, i + 1, added), store'), WithSplit(Node(keys, Subtrees(children, store)), i, s).children;
    forall j | 0 <= j < |a| ensures a[j] == b[j] {
    }
  }
}
