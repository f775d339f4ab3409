/**
Access to members of serialized structs, at any depth, without touching the rest.
*/
module Members {
  import opened Blocks
  import opened Wrappers
  import opened Serialization

  /** A path of field positions, from a struct into nested structs. */
  predicate IsPath(t: Type, path: seq<nat>)
    decreases path
  {
    path == [] || (t.Tuple? && path[0] < |t.fields| && IsPath(t.fields[path[0]], path[1..]))
  }

  function MemberType(t: Type, path: seq<nat>): Type
    requires IsPath(t, path)
    decreases path
  {
    if path == [] then t else MemberType(t.fields[path[0]], path[1..])
  }

  /** Where the bytes of a member start: the sizes of the fields before it, summed up along the path. */
  function Offset(t: Type, path: seq<nat>): nat
    requires IsPath(t, path)
    decreases path
  {
    if path == [] then 0 else SizeAll(t.fields[..path[0]]) + Offset(t.fields[path[0]], path[1..])
  }

  function Get(v: Value, t: Type, path: seq<nat>): (x: Value)
    requires IsPath(t, path) && HasType(v, t)
    ensures HasType(x, MemberType(t, path))
    decreases path
  {
    if path == [] then v else Get(v.items[path[0]], t.fields[path[0]], path[1..])
  }

  function Replace(v: Value, t: Type, path: seq<nat>, x: Value): (r: Value)
    requires IsPath(t, path) && HasType(v, t) && HasType(x, MemberType(t, path))
    ensures HasType(r, t)
    decreases path
  {
    if path == [] then x
    else List(v.items[path[0] := Replace(v.items[path[0]], t.fields[path[0]], path[1..], x)])
  }

  // ---- Fields of one struct.

  lemma {:induction false} FieldInside(ts: seq<Type>, k: nat)
    requires k < |ts|
    ensures SizeAll(ts[..k]) + Size(ts[k]) <= SizeAll(ts)
  {
    SizeOfPrefix(ts, k);
    SizeOfPrefix(ts, k + 1);
  }

  /** Fields do not overlap. */
  lemma FieldsInOrder(ts: seq<Type>, j: nat, k: nat)
    requires j < k < |ts|
    ensures SizeAll(ts[..j]) + Size(ts[j]) <= SizeAll(ts[..k])
  {
    SizeOfPrefix(ts[..k], j);
    SizeOfPrefix(ts[..k], j + 1);
    assert ts[..k][..j] == ts[..j] && ts[..k][..j + 1] == ts[..j + 1];
    SizeOfPrefix(ts, j);
  }

  ghost predicate AllFit(vs: seq<Value>, ts: seq<Type>) {
    |vs| == |ts| && forall i :: 0 <= i < |ts| ==> Fits(ts[i]) && HasType(vs[i], ts[i])
  }

  /** The window of a field holds the bytes of the field, and replacing them replaces the field. */
  lemma {:induction false} FieldWindow(vs: seq<Value>, ts: seq<Type>, k: nat, x: Value)
    requires AllFit(vs, ts) && k < |ts| && HasType(x, ts[k])
    ensures SizeAll(ts[..k]) + Size(ts[k]) <= SizeAll(ts) && AllFit(vs[k := x], ts)
    ensures EncodeAll(vs, ts)[SizeAll(ts[..k])..SizeAll(ts[..k]) + Size(ts[k])] == Encode(vs[k], ts[k])
    ensures EncodeAll(vs[k := x], ts) == Splice(EncodeAll(vs, ts), SizeAll(ts[..k]), Encode(x, ts[k]))
    decreases |ts|
  {
    hide Encode, Size, Fits, HasType;
    FieldInside(ts, k);
    var n, s := |ts| - 1, EncodeAll(vs, ts);
    var s0 := EncodeAll(vs[..n], ts[..n]);
    if k < n {
      FieldWindow(vs[..n], ts[..n], k, x);
      assert ts[..n][..k] == ts[..k];
      assert s[..SizeAll(ts[..n])] == s0;
      assert vs[k := x][..n] == vs[..n][k := x];
      SpliceFront(s0, Encode(vs[n], ts[n]), SizeAll(ts[..k]), Encode(x, ts[k]));
      WindowFront(s0, Encode(vs[n], ts[n]), SizeAll(ts[..k]), Size(ts[k]));
    } else {
      assert vs[k := x][..n] == vs[..n];
      SpliceBack(s0, Encode(vs[n], ts[n]), Encode(x, ts[n]));
    }
  }

  lemma SpliceFront(s: seq<byte>, tail: seq<byte>, at: nat, d: seq<byte>)
    requires at + |d| <= |s|
    ensures Splice(s, at, d) + tail == Splice(s + tail, at, d)
  {}

  lemma WindowFront(s: seq<byte>, tail: seq<byte>, at: nat, n: nat)
    requires at + n <= |s|
    ensures (s + tail)[at..at + n] == s[at..at + n]
  {}

  lemma SpliceBack(s: seq<byte>, tail: seq<byte>, d: seq<byte>)
    requires |d| == |tail|
    ensures s + d == Splice(s + tail, |s|, d) && (s + tail)[|s|..|s| + |tail|] == tail
  {}

  // ---- Members at any depth.

  lemma {:induction false} MemberInside(t: Type, path: seq<nat>)
    requires IsPath(t, path)
    ensures Offset(t, path) + Size(MemberType(t, path)) <= Size(t)
    decreases path
  {
    if path != [] {
      FieldInside(t.fields, path[0]);
      MemberInside(t.fields[path[0]], path[1..]);
    }
  }

  lemma {:induction false} MemberFits(t: Type, path: seq<nat>)
    requires IsPath(t, path) && Fits(t)
    ensures Fits(MemberType(t, path))
    decreases path
  {
    if path != [] {
      MemberFits(t.fields[path[0]], path[1..]);
    }
  }

  lemma SpliceInside(s: seq<byte>, o: nat, n: nat, at: nat, d: seq<byte>)
    requires o + n <= |s| && at + |d| <= n
    ensures Splice(s, o, Splice(s[o..o + n], at, d)) == Splice(s, o + at, d)
    ensures s[o..o + n][at..at + |d|] == s[o + at..o + at + |d|]
  {
    SliceOfSlice(s, o, n, at, |d|);
  }

  lemma EncodeFields(v: Value, t: Type)
    requires Fits(t) && HasType(v, t) && t.Tuple?
    ensures v.List? && AllFit(v.items, t.fields) && Encode(v, t) == EncodeAll(v.items, t.fields) && Size(t) == SizeAll(t.fields)
  {}

  /**
  The window of a member holds the bytes of the member, and overwriting the window with the bytes of
  another value gives the bytes of the struct with the member replaced.
  */
  lemma {:induction false} MemberWindow(v: Value, t: Type, path: seq<nat>, x: Value)
    requires Fits(t) && HasType(v, t) && IsPath(t, path) && HasType(x, MemberType(t, path))
    ensures Fits(MemberType(t, path)) && Offset(t, path) + Size(MemberType(t, path)) <= Size(t)
    ensures Encode(v, t)[Offset(t, path)..Offset(t, path) + Size(MemberType(t, path))] == Encode(Get(v, t, path), MemberType(t, path))
    ensures Encode(Replace(v, t, path, x), t) == Splice(Encode(v, t), Offset(t, path), Encode(x, MemberType(t, path)))
    decreases path
  {
    MemberFits(t, path);
    MemberInside(t, path);
    if path != [] {
      MemberStep(v, t, path, x);
    }
  }

  lemma {:induction false} MemberStep(v: Value, t: Type, path: seq<nat>, x: Value)
    requires Fits(t) && HasType(v, t) && IsPath(t, path) && path != [] && HasType(x, MemberType(t, path))
    requires Fits(MemberType(t, path)) && Offset(t, path) + Size(MemberType(t, path)) <= Size(t)
    ensures Encode(v, t)[Offset(t, path)..Offset(t, path) + Size(MemberType(t, path))] == Encode(Get(v, t, path), MemberType(t, path))
    ensures Encode(Replace(v, t, path, x), t) == Splice(Encode(v, t), Offset(t, path), Encode(x, MemberType(t, path)))
    decreases path, 0
  {
    hide Splice, EncodeAll, Encode, HasType, Fits, Size, SizeAll;
    EncodeFields(v, t);
    var k := path[0];
    var vs, ts := v.items, t.fields;
    var inner := Replace(vs[k], ts[k], path[1..], x);
    MemberWindow(vs[k], ts[k], path[1..], x);
    FieldWindow(vs, ts, k, inner);
    EncodeFields(Replace(v, t, path, x), t);
    SpliceInside(EncodeAll(vs, ts), SizeAll(ts[..k]), Size(ts[k]), Offset(ts[k], path[1..]), Encode(x, MemberType(t, path)));
  }

  /** Members none of which contains the other have separate windows. */
  lemma {:induction false} WindowsApart(t: Type, p: seq<nat>, q: seq<nat>)
    requires IsPath(t, p) && IsPath(t, q) && !(p <= q) && !(q <= p)
    ensures Offset(t, p) + Size(MemberType(t, p)) <= Offset(t, q) || Offset(t, q) + Size(MemberType(t, q)) <= Offset(t, p)
    decreases p
  {
    var ts := t.fields;
    MemberInside(ts[p[0]], p[1..]);
    MemberInside(ts[q[0]], q[1..]);
    if p[0] == q[0] {
      assert p == [p[0]] + p[1..] && q == [q[0]] + q[1..];
      WindowsApart(ts[p[0]], p[1..], q[1..]);
    } else if p[0] < q[0] {
      FieldsInOrder(ts, p[0], q[0]);
    } else {
      FieldsInOrder(ts, q[0], p[0]);
    }
  }

  /** Changing one member leaves every separate member as it was. */
  lemma {:induction false} OthersStay(v: Value, t: Type, p: seq<nat>, q: seq<nat>, x: Value)
    requires HasType(v, t) && IsPath(t, p) && IsPath(t, q) && !(p <= q) && !(q <= p) && HasType(x, MemberType(t, p))
    ensures Get(Replace(v, t, p, x), t, q) == Get(v, t, q) && Get(Replace(v, t, p, x), t, p) == x
    decreases p
  {
    if p[0] == q[0] {
      assert p == [p[0]] + p[1..] && q == [q[0]] + q[1..];
      OthersStay(v.items[p[0]], t.fields[p[0]], p[1..], q[1..], x);
    } else {
      GetReplaced(v, t, p, x);
    }
  }

  lemma {:induction false} GetReplaced(v: Value, t: Type, p: seq<nat>, x: Value)
    requires HasType(v, t) && IsPath(t, p) && HasType(x, MemberType(t, p))
    ensures Get(Replace(v, t, p, x), t, p) == x
    decreases p
  {
    if p != [] {
      GetReplaced(v.items[p[0]], t.fields[p[0]], p[1..], x);
    }
  }

  // ---- The operations.

  /**
  Looks for a field in a list of fields, with the sizes of the ones before it added up on the way.
  The fields are known by distinct names.
  */
  method FieldOffset(names: seq<nat>, ts: seq<Type>, name: nat) returns (offset: nat, found: bool)
    requires |names| == |ts|
    ensures found <==> name in names
    ensures found ==> exists k :: 0 <= k < |ts| && names[k] == name && offset == SizeAll(ts[..k]) && name !in names[..k]
  {
    hide Size;
    offset, found := 0, false;
    var i := 0;
    while i < |ts|
      invariant i <= |ts|
      invariant found <==> name in names[..i]
      invariant !found ==> offset == SizeAll(ts[..i])
      invariant found ==> exists k :: 0 <= k < i && names[k] == name && offset == SizeAll(ts[..k]) && name !in names[..k]
    {
      assert names[..i + 1] == names[..i] + [names[i]];
      if !found {
        if names[i] == name {
          found := true;
        } else {
          SizeOfPrefix(ts, i);
          offset := offset + Size(ts[i]);
        }
      }
      i := i + 1;
    }
    assert names[..i] == names;
  }

  /** Writes one member of a serialized struct: the buffer then holds the struct with that member replaced. */
  method SerializeMember(x: Value, t: Type, path: seq<nat>, b: array<byte>, ghost v: Value)
    requires Fits(t) && IsPath(t, path) && HasType(x, MemberType(t, path)) && HasType(v, t)
    requires Size(t) <= b.Length && b[..Size(t)] == Encode(v, t)
    modifies b
    ensures b[..Size(t)] == Encode(Replace(v, t, path, x), t) && b[Size(t)..] == old(b[Size(t)..])
  {
    hide Encode, HasType, Size, Fits, IsPath;
    MemberWindow(v, t, path, x);
    var n := Serialize(x, MemberType(t, path), b, Offset(t, path));
    ghost var s := old(b[..]);
    assert Splice(s, Offset(t, path), Encode(x, MemberType(t, path)))[..Size(t)] == Splice(s[..Size(t)], Offset(t, path), Encode(x, MemberType(t, path)));
    assert b[..][..Size(t)] == b[..Size(t)] && b[..][Size(t)..] == b[Size(t)..];
  }

  /** Reads one member of a serialized struct. */
  method DeserializeMember(t: Type, path: seq<nat>, b: seq<byte>, ghost v: Value) returns (r: Result<Value, Corruption>)
    requires Fits(t) && IsPath(t, path) && HasType(v, t) && Size(t) <= |b| && b[..Size(t)] == Encode(v, t)
    ensures r == Success(Get(v, t, path))
  {
    hide Encode, HasType, Size, Fits, IsPath, Decode;
    MemberWindow(v, t, path, Get(v, t, path));
    var o, m := Offset(t, path), MemberType(t, path);
    r := Deserialize(m, b, o);
    assert b[..Size(t)][o..o + Size(m)] == b[o..o + Size(m)];
    RoundTrip(Get(v, t, path), m);
  }
}
