/**
The fixed-size binary format: a universe of types, the bytes of their values, and members of structs.
*/
module Serialization {
  import opened Blocks
  import opened Wrappers
  import B = BigEndian

  /**
  A variant reserves as many bytes as its largest alternative takes in memory, so its type carries
  the in-memory sizes. Pairs, tuples and structs with a binary format are all sequences of fields.
  */
  datatype Type =
    | UInt(width: nat)
    | SInt(width: nat)
    | Bool
    | Unit
    | Array(elem: Type, count: nat)
    | Tuple(fields: seq<Type>)
    | Optional(elem: Type)
    | Variant(alternatives: seq<Type>, sizeofs: seq<nat>)

  datatype Value =
    | Number(number: int)
    | Flag(flag: bool)
    | Nothing
    | List(items: seq<Value>)
    | Absent
    | Present(content: Value)
    | Choice(which: nat, content: Value)

  datatype Corruption = BadFlag(flag: byte) | BadTag(tag: byte)

  const MAX_ALTERNATIVES: nat := 16

  // ---- Types.

  function MaxOf(sizes: seq<nat>): (m: nat)
    ensures forall i :: 0 <= i < |sizes| ==> sizes[i] <= m
    ensures m in sizes || (m == 0 && sizes == [])
  {
    if sizes == [] then 0
    else
      var rest := MaxOf(sizes[..|sizes| - 1]);
      if sizes[|sizes| - 1] > rest then sizes[|sizes| - 1] else rest
  }

  function Size(t: Type): nat
    decreases t
  {
    match t
    case UInt(n) => n
    case SInt(n) => n
    case Bool => 1
    case Unit => 0
    case Array(e, n) => n * Size(e)
    case Tuple(ts) => SizeAll(ts)
    case Optional(e) => 1 + Size(e)
    case Variant(_, sizes) => 1 + MaxOf(sizes)
  }

  function SizeAll(ts: seq<Type>): nat
    decreases ts
  {
    if ts == [] then 0 else SizeAll(ts[..|ts| - 1]) + Size(ts[|ts| - 1])
  }

  /** Every variant reserves enough room for each of its alternatives. */
  predicate Fits(t: Type)
    decreases t
  {
    match t
    case UInt(n) => n > 0
    case SInt(n) => n > 0
    case Bool => true
    case Unit => true
    case Array(e, _) => Fits(e)
    case Tuple(ts) => forall i :: 0 <= i < |ts| ==> Fits(ts[i])
    case Optional(e) => Fits(e)
    case Variant(ts, sizes) =>
      && 0 < |ts| <= MAX_ALTERNATIVES && |sizes| == |ts|
      && forall i :: 0 <= i < |ts| ==> Fits(ts[i]) && Size(ts[i]) <= MaxOf(sizes)
  }

  /** Half the number of values of a signed integer. */
  function Half(n: nat): int
    requires n > 0
  {
    128 * B.Pow256(n - 1)
  }

  predicate HasType(v: Value, t: Type)
    decreases t
  {
    match t
    case UInt(n) => v.Number? && 0 <= v.number < B.Pow256(n)
    case SInt(n) => v.Number? && n > 0 && -Half(n) <= v.number < Half(n)
    case Bool => v.Flag?
    case Unit => v.Nothing?
    case Array(e, n) => v.List? && |v.items| == n && forall i :: 0 <= i < n ==> HasType(v.items[i], e)
    case Tuple(ts) => v.List? && |v.items| == |ts| && forall i :: 0 <= i < |ts| ==> HasType(v.items[i], ts[i])
    case Optional(e) => v.Absent? || (v.Present? && HasType(v.content, e))
    case Variant(ts, _) => v.Choice? && v.which < |ts| && HasType(v.content, ts[v.which])
  }

  // ---- Values as bytes.

  function Unsigned(v: int, n: nat): (u: nat)
    requires n > 0 && -Half(n) <= v < Half(n)
    ensures u < B.Pow256(n)
  {
    if v < 0 then v + B.Pow256(n) else v
  }

  function Encode(v: Value, t: Type): (s: seq<byte>)
    requires Fits(t) && HasType(v, t)
    ensures |s| == Size(t)
    decreases t, 0
  {
    match t
    case UInt(n) => B.Encode(v.number, n)
    case SInt(n) => B.Encode(Unsigned(v.number, n), n)
    case Bool => [if v.flag then 1 else 0]
    case Unit => []
    case Array(e, n) => EncodeArray(v.items, e)
    case Tuple(ts) => EncodeAll(v.items, ts)
    case Optional(e) => if v.Present? then [1] + Encode(v.content, e) else Zeros(Size(t))
    case Variant(ts, sizes) =>
      [v.which as byte] + Encode(v.content, ts[v.which]) + Zeros(MaxOf(sizes) - Size(ts[v.which]))
  }

  function EncodeArray(vs: seq<Value>, e: Type): (s: seq<byte>)
    requires Fits(e) && forall i :: 0 <= i < |vs| ==> HasType(vs[i], e)
    ensures |s| == |vs| * Size(e)
    decreases e, |vs| + 1
  {
    if vs == [] then []
    else
      var n := |vs| - 1;
      MulStep(n, Size(e));
      EncodeArray(vs[..n], e) + Encode(vs[n], e)
  }

  function EncodeAll(vs: seq<Value>, ts: seq<Type>): (s: seq<byte>)
    requires |vs| == |ts| && forall i :: 0 <= i < |ts| ==> Fits(ts[i]) && HasType(vs[i], ts[i])
    ensures |s| == SizeAll(ts)
    decreases ts, 0
  {
    if ts == [] then []
    else
      var n := |ts| - 1;
      EncodeAll(vs[..n], ts[..n]) + Encode(vs[n], ts[n])
  }

  // ---- Bytes as values.

  function Signed(u: nat, n: nat): (v: int)
    requires n > 0 && u < B.Pow256(n)
    ensures -Half(n) <= v < Half(n)
  {
    if u < Half(n) then u else u - B.Pow256(n)
  }

  function Decode(t: Type, s: seq<byte>): (r: Result<Value, Corruption>)
    requires Fits(t) && |s| == Size(t)
    ensures r.Success? ==> HasType(r.value, t)
    decreases t, 0
  {
    match t
    case UInt(n) => Success(Number(B.Decode(s)))
    case SInt(n) => Success(Number(Signed(B.Decode(s), n)))
    case Bool => Success(Flag(s[0] != 0))
    case Unit => Success(Nothing)
    case Array(e, n) =>
      var items := DecodeArray(e, n, s);
      if items.Success? then Success(List(items.value)) else Failure(items.error)
    case Tuple(ts) =>
      var items := DecodeAll(ts, s);
      if items.Success? then Success(List(items.value)) else Failure(items.error)
    case Optional(e) =>
      if s[0] == 0 then Success(Absent)
      else if s[0] == 1 then
        var v := Decode(e, s[1..]);
        if v.Success? then Success(Present(v.value)) else v
      else Failure(BadFlag(s[0]))
    case Variant(ts, _) =>
      if s[0] as nat >= |ts| then Failure(BadTag(s[0]))
      else
        var alternative := ts[s[0]];
        var v := Decode(alternative, s[1..1 + Size(alternative)]);
        if v.Success? then Success(Choice(s[0] as nat, v.value)) else v
  }

  function DecodeArray(e: Type, n: nat, s: seq<byte>): (r: Result<seq<Value>, Corruption>)
    requires Fits(e) && |s| == n * Size(e)
    ensures r.Success? ==> |r.value| == n && forall i :: 0 <= i < n ==> HasType(r.value[i], e)
    decreases e, n + 1
  {
    if n == 0 then Success([])
    else
      MulStep(n - 1, Size(e));
      var k := |s| - Size(e);
      var items := DecodeArray(e, n - 1, s[..k]);
      if items.Failure? then items
      else
        var v := Decode(e, s[k..]);
        if v.Success? then Success(items.value + [v.value]) else Failure(v.error)
  }

  function DecodeAll(ts: seq<Type>, s: seq<byte>): (r: Result<seq<Value>, Corruption>)
    requires (forall i :: 0 <= i < |ts| ==> Fits(ts[i])) && |s| == SizeAll(ts)
    ensures r.Success? ==> |r.value| == |ts| && forall i :: 0 <= i < |ts| ==> HasType(r.value[i], ts[i])
    decreases ts, 0
  {
    if ts == [] then Success([])
    else
      var n := |ts| - 1;
      var k := SizeAll(ts[..n]);
      var items := DecodeAll(ts[..n], s[..k]);
      if items.Failure? then items
      else
        var v := Decode(ts[n], s[k..]);
        if v.Success? then Success(items.value + [v.value]) else Failure(v.error)
  }

  // ---- Decoding undoes encoding.

  lemma SignedUnsigned(v: int, n: nat)
    requires n > 0 && -Half(n) <= v < Half(n)
    ensures Signed(Unsigned(v, n), n) == v
  {}

  /** Every value is recovered from its bytes. */
  lemma {:induction false} RoundTrip(v: Value, t: Type)
    requires Fits(t) && HasType(v, t)
    ensures Decode(t, Encode(v, t)) == Success(v)
    decreases t, 0
  {
    match t
    case UInt(n) => B.DecodeEncode(v.number, n);
    case SInt(n) => B.DecodeEncode(Unsigned(v.number, n), n); SignedUnsigned(v.number, n);
    case Bool =>
    case Unit =>
    case Array(e, n) => RoundTripArray(v.items, e);
    case Tuple(ts) => RoundTripAll(v.items, ts);
    case Optional(e) =>
      if v.Present? {
        RoundTrip(v.content, e);
        assert Encode(v, t)[1..] == Encode(v.content, e);
      }
    case Variant(ts, sizes) =>
      var inner := ts[v.which];
      RoundTrip(v.content, inner);
      assert Encode(v, t)[1..1 + Size(inner)] == Encode(v.content, inner);
  }

  lemma {:induction false} RoundTripArray(vs: seq<Value>, e: Type)
    requires Fits(e) && forall i :: 0 <= i < |vs| ==> HasType(vs[i], e)
    ensures DecodeArray(e, |vs|, EncodeArray(vs, e)) == Success(vs)
    decreases e, |vs| + 1
  {
    hide Encode, Decode, HasType, Fits, Size, EncodeArray;
    if vs != [] {
      var n := |vs| - 1;
      RoundTripArray(vs[..n], e);
      RoundTrip(vs[n], e);
      LastElement(vs, e);
      assert vs == vs[..n] + [vs[n]];
    }
  }

  lemma LastElement(vs: seq<Value>, e: Type)
    requires Fits(e) && (forall i :: 0 <= i < |vs| ==> HasType(vs[i], e)) && |vs| > 0
    ensures var n, s := |vs| - 1, EncodeArray(vs, e);
            Size(e) <= |s| && s[..|s| - Size(e)] == EncodeArray(vs[..n], e) && s[|s| - Size(e)..] == Encode(vs[n], e)
  {}

  lemma {:induction false} RoundTripAll(vs: seq<Value>, ts: seq<Type>)
    requires |vs| == |ts| && forall i :: 0 <= i < |ts| ==> Fits(ts[i]) && HasType(vs[i], ts[i])
    ensures DecodeAll(ts, EncodeAll(vs, ts)) == Success(vs)
    decreases ts, 0
  {
    hide Encode, Decode, HasType, Fits, Size;
    if ts != [] {
      var n := |ts| - 1;
      RoundTripAll(vs[..n], ts[..n]);
      RoundTrip(vs[n], ts[n]);
      var s, k := EncodeAll(vs, ts), SizeAll(ts[..n]);
      assert s[..k] == EncodeAll(vs[..n], ts[..n]) && s[k..] == Encode(vs[n], ts[n]);
      assert vs == vs[..n] + [vs[n]];
    }
  }

  /** Different values have different bytes. */
  lemma Canonical(v: Value, w: Value, t: Type)
    requires Fits(t) && HasType(v, t) && HasType(w, t)
    ensures Encode(v, t) == Encode(w, t) <==> v == w
  {
    hide Encode, Decode;
    RoundTrip(v, t);
    RoundTrip(w, t);
  }

  // ---- Which bytes a value has.

  ghost predicate AllZero(s: seq<byte>) {
    forall k :: 0 <= k < |s| ==> s[k] == 0
  }

  /**
  The bytes from which a value is read, and with `exact` those that are written for it: numbers start with their most
  significant byte, negative ones as their two's complement; a byte tells whether an optional has a value and which
  alternative a variant has. Bytes that are not needed are written as zeros.
  */
  ghost predicate Layout(s: seq<byte>, v: Value, t: Type, exact: bool)
    decreases t, 0
  {
    match t
    case UInt(n) => |s| == n && v.Number? && v.number >= 0 && B.Digits(s, v.number)
    case SInt(n) => |s| == n && v.Number? && B.Digits(s, v.number % B.Pow256(n))
    case Bool => |s| == 1 && v.Flag? && (v.flag <==> s[0] != 0) && (exact ==> s[0] <= 1)
    case Unit => |s| == 0 && v.Nothing?
    case Array(e, n) => v.List? && |v.items| == n && ArrayLayout(s, v.items, e, exact)
    case Tuple(ts) => v.List? && |v.items| == |ts| && FieldLayout(s, v.items, ts, exact)
    case Optional(e) =>
      && |s| == 1 + Size(e)
      && if v.Absent? then s[0] == 0 && (exact ==> AllZero(s)) else v.Present? && s[0] == 1 && Layout(s[1..], v.content, e, exact)
    case Variant(ts, sizes) =>
      && |s| == 1 + MaxOf(sizes) && v.Choice? && v.which < |ts| && s[0] as nat == v.which && 1 + Size(ts[v.which]) <= |s|
      && Layout(s[1..1 + Size(ts[v.which])], v.content, ts[v.which], exact) && (exact ==> AllZero(s[1 + Size(ts[v.which])..]))
  }

  /** One element after the other. */
  ghost predicate ArrayLayout(s: seq<byte>, vs: seq<Value>, e: Type, exact: bool)
    decreases e, |vs| + 1
  {
    if vs == [] then s == []
    else
      var n, k := |vs| - 1, |s| - Size(e);
      k >= 0 && ArrayLayout(s[..k], vs[..n], e, exact) && Layout(s[k..], vs[n], e, exact)
  }

  /** One field after the other. */
  ghost predicate FieldLayout(s: seq<byte>, vs: seq<Value>, ts: seq<Type>, exact: bool)
    requires |vs| == |ts|
    decreases ts, 0
  {
    if ts == [] then s == []
    else
      var n := |ts| - 1;
      var k := |s| - Size(ts[n]);
      k >= 0 && FieldLayout(s[..k], vs[..n], ts[..n], exact) && Layout(s[k..], vs[n], ts[n], exact)
  }

  lemma {:induction false} LayoutSize(s: seq<byte>, v: Value, t: Type, exact: bool)
    requires Layout(s, v, t, exact)
    ensures |s| == Size(t)
    decreases t, 0
  {
    match t
    case Array(e, n) => ArrayLayoutSize(s, v.items, e, exact);
    case Tuple(ts) => FieldLayoutSize(s, v.items, ts, exact);
    case _ =>
  }

  lemma {:induction false} ArrayLayoutSize(s: seq<byte>, vs: seq<Value>, e: Type, exact: bool)
    requires ArrayLayout(s, vs, e, exact)
    ensures |s| == |vs| * Size(e)
    decreases |vs|
  {
    hide Layout, Size;
    if vs != [] {
      ArrayLayoutSize(s[..|s| - Size(e)], vs[..|vs| - 1], e, exact);
      MulStep(|vs| - 1, Size(e));
    }
  }

  lemma {:induction false} FieldLayoutSize(s: seq<byte>, vs: seq<Value>, ts: seq<Type>, exact: bool)
    requires |vs| == |ts| && FieldLayout(s, vs, ts, exact)
    ensures |s| == SizeAll(ts)
    decreases |vs|
  {
    hide Layout, Size;
    if ts != [] {
      var n := |ts| - 1;
      FieldLayoutSize(s[..|s| - Size(ts[n])], vs[..n], ts[..n], exact);
    }
  }

  /** What is written for a value is exactly its bytes. */
  lemma {:induction false} EncodeIs(v: Value, t: Type, s: seq<byte>)
    requires Fits(t) && HasType(v, t)
    ensures s == Encode(v, t) <==> Layout(s, v, t, true)
    decreases t, 0
  {
    match t
    case UInt(n) =>
      B.EncodeDigits(v.number, n);
      B.DigitsAre(s, v.number);
    case SInt(n) =>
      UnsignedIs(v.number, n);
      B.EncodeDigits(Unsigned(v.number, n), n);
      B.DigitsAre(s, Unsigned(v.number, n));
    case Bool =>
    case Unit =>
    case Array(e, n) => EncodeArrayIs(v.items, e, s);
    case Tuple(ts) => EncodeAllIs(v.items, ts, s);
    case Optional(e) => EncodeOptionalIs(v, e, s);
    case Variant(ts, sizes) => EncodeVariantIs(v, ts, sizes, s);
  }

  lemma {:induction false} EncodeOptionalIs(v: Value, e: Type, s: seq<byte>)
    requires Fits(Optional(e)) && HasType(v, Optional(e))
    ensures s == Encode(v, Optional(e)) <==> Layout(s, v, Optional(e), true)
    decreases e, 1
  {
    if v.Present? {
      if |s| > 0 {
        EncodeIs(v.content, e, s[1..]);
        assert s == [s[0]] + s[1..];
      }
      assert Encode(v, Optional(e))[1..] == Encode(v.content, e);
    }
  }

  lemma UnsignedIs(v: int, n: nat)
    requires n > 0 && -Half(n) <= v < Half(n)
    ensures Unsigned(v, n) == v % B.Pow256(n)
  {
    hide B.Pow256, Half;
    HalfTwice(n);
    Modulo(v, B.Pow256(n));
  }

  lemma HalfTwice(n: nat)
    requires n > 0
    ensures 0 < Half(n) && Half(n) + Half(n) == B.Pow256(n)
  {}

  lemma Modulo(v: int, p: int)
    requires 0 < p && -p <= v < p
    ensures v % p == if v < 0 then v + p else v
  {
    if v < 0 {
      assert v == -1 * p + (v + p);
    }
  }

  lemma {:induction false} EncodeArrayIs(vs: seq<Value>, e: Type, s: seq<byte>)
    requires Fits(e) && forall i :: 0 <= i < |vs| ==> HasType(vs[i], e)
    ensures s == EncodeArray(vs, e) <==> ArrayLayout(s, vs, e, true)
    decreases e, |vs| + 1
  {
    hide Encode, HasType, Fits, Size, Layout;
    if vs != [] {
      var n, k := |vs| - 1, |s| - Size(e);
      if k >= 0 {
        EncodeArrayIs(vs[..n], e, s[..k]);
        EncodeIs(vs[n], e, s[k..]);
        Halves(s, k, EncodeArray(vs[..n], e), Encode(vs[n], e));
      } else {
        AtLeast(EncodeArray(vs[..n], e), Encode(vs[n], e));
      }
    }
  }

  lemma Halves(s: seq<byte>, k: nat, a: seq<byte>, b: seq<byte>)
    requires k <= |s| && |s| - k == |b|
    ensures s == a + b <==> s[..k] == a && s[k..] == b
  {
    if s == a + b {
      assert s[..k] == a && s[k..] == b;
    }
    assert s == s[..k] + s[k..];
  }

  lemma AtLeast(a: seq<byte>, b: seq<byte>)
    ensures |a + b| >= |b|
  {}

  lemma {:induction false} EncodeAllIs(vs: seq<Value>, ts: seq<Type>, s: seq<byte>)
    requires |vs| == |ts| && forall i :: 0 <= i < |ts| ==> Fits(ts[i]) && HasType(vs[i], ts[i])
    ensures s == EncodeAll(vs, ts) <==> FieldLayout(s, vs, ts, true)
    decreases ts, 0
  {
    hide Encode, HasType, Fits, Size, Layout;
    if ts != [] {
      var n := |ts| - 1;
      var k := |s| - Size(ts[n]);
      if k >= 0 {
        EncodeAllIs(vs[..n], ts[..n], s[..k]);
        EncodeIs(vs[n], ts[n], s[k..]);
        Halves(s, k, EncodeAll(vs[..n], ts[..n]), Encode(vs[n], ts[n]));
      } else {
        AtLeast(EncodeAll(vs[..n], ts[..n]), Encode(vs[n], ts[n]));
      }
    }
  }

  lemma {:induction false} EncodeVariantIs(v: Value, ts: seq<Type>, sizes: seq<nat>, s: seq<byte>)
    requires Fits(Variant(ts, sizes)) && HasType(v, Variant(ts, sizes))
    ensures s == Encode(v, Variant(ts, sizes)) <==> Layout(s, v, Variant(ts, sizes), true)
    decreases ts, 0
  {
    hide MaxOf;
    var inner := ts[v.which];
    var m := Size(inner);
    if |s| == 1 + MaxOf(sizes) {
      EncodeIs(v.content, inner, s[1..1 + m]);
      ThreeParts(s, v.which as byte, Encode(v.content, inner));
    }
  }

  lemma ThreeParts(s: seq<byte>, tag: byte, d: seq<byte>)
    requires 1 + |d| <= |s|
    ensures s == [tag] + d + Zeros(|s| - 1 - |d|) <==> s[0] == tag && s[1..1 + |d|] == d && AllZero(s[1 + |d|..])
  {
    var m := |d|;
    assert s == [s[0]] + s[1..1 + m] + s[1 + m..];
    var whole := [tag] + d + Zeros(|s| - 1 - m);
    assert whole[0] == tag && whole[1..1 + m] == d && whole[1 + m..] == Zeros(|s| - 1 - m);
    if AllZero(s[1 + m..]) {
      assert s[1 + m..] == Zeros(|s| - 1 - m);
    }
  }

  /** What is read from bytes is exactly a value that has them; other bytes are not read. */
  lemma {:induction false} DecodeIs(t: Type, s: seq<byte>, v: Value)
    requires Fits(t) && |s| == Size(t)
    ensures Decode(t, s) == Success(v) <==> HasType(v, t) && Layout(s, v, t, false)
    decreases t, 0
  {
    match t
    case UInt(n) =>
      if v.Number? && v.number >= 0 {
        B.DigitsAre(s, v.number);
      }
    case SInt(n) => DecodeSignedIs(n, s, v);
    case Bool =>
    case Unit =>
    case Array(e, n) =>
      if v.List? && |v.items| == n {
        DecodeArrayIs(e, s, v.items);
      }
    case Tuple(ts) =>
      if v.List? && |v.items| == |ts| {
        DecodeAllIs(ts, s, v.items);
      }
    case Optional(e) =>
      if v.Present? {
        DecodeIs(e, s[1..], v.content);
      }
    case Variant(ts, sizes) => DecodeVariantIs(ts, sizes, s, v);
  }

  lemma DecodeSignedIs(n: nat, s: seq<byte>, v: Value)
    requires n > 0 && |s| == n
    ensures v == Number(Signed(B.Decode(s), n)) <==> HasType(v, SInt(n)) && B.Digits(s, v.number % B.Pow256(n))
  {
    hide B.Pow256, B.Decode, B.Digits, Half;
    HalfTwice(n);
    var u := B.Decode(s);
    if v.Number? && -Half(n) <= v.number < Half(n) {
      UnsignedIs(v.number, n);
      B.DigitsAre(s, Unsigned(v.number, n));
      SignedUnsigned(v.number, n);
      UnsignedSigned(u, n);
    }
  }

  lemma UnsignedSigned(u: nat, n: nat)
    requires n > 0 && u < B.Pow256(n)
    ensures Unsigned(Signed(u, n), n) == u
  {
    HalfTwice(n);
  }

  lemma {:induction false} DecodeArrayIs(e: Type, s: seq<byte>, vs: seq<Value>)
    requires Fits(e) && |s| == |vs| * Size(e)
    ensures DecodeArray(e, |vs|, s) == Success(vs) <==> (forall i :: 0 <= i < |vs| ==> HasType(vs[i], e)) && ArrayLayout(s, vs, e, false)
    decreases e, |vs| + 1
  {
    hide Decode, HasType, Fits, Size, Layout;
    if vs != [] {
      var n := |vs| - 1;
      MulStep(n, Size(e));
      var k := |s| - Size(e);
      DecodeArrayIs(e, s[..k], vs[..n]);
      DecodeIs(e, s[k..], vs[n]);
      assert vs == vs[..n] + [vs[n]];
    }
  }

  lemma {:induction false} DecodeAllIs(ts: seq<Type>, s: seq<byte>, vs: seq<Value>)
    requires |vs| == |ts| && (forall i :: 0 <= i < |ts| ==> Fits(ts[i])) && |s| == SizeAll(ts)
    ensures DecodeAll(ts, s) == Success(vs) <==> (forall i :: 0 <= i < |ts| ==> HasType(vs[i], ts[i])) && FieldLayout(s, vs, ts, false)
    decreases ts, 0
  {
    hide Decode, HasType, Fits, Size, Layout;
    if ts != [] {
      var n := |ts| - 1;
      var k := SizeAll(ts[..n]);
      DecodeAllIs(ts[..n], s[..k], vs[..n]);
      DecodeIs(ts[n], s[k..], vs[n]);
      assert vs == vs[..n] + [vs[n]];
    }
  }

  lemma {:induction false} DecodeVariantIs(ts: seq<Type>, sizes: seq<nat>, s: seq<byte>, v: Value)
    requires Fits(Variant(ts, sizes)) && |s| == 1 + MaxOf(sizes)
    ensures Decode(Variant(ts, sizes), s) == Success(v) <==> HasType(v, Variant(ts, sizes)) && Layout(s, v, Variant(ts, sizes), false)
    decreases ts, 0
  {
    hide MaxOf;
    if v.Choice? && v.which < |ts| {
      var inner := ts[v.which];
      DecodeIs(inner, s[1..1 + Size(inner)], v.content);
    }
  }

  /** A field does not depend on the last one. */
  lemma FieldOfPrefix(s: seq<byte>, vs: seq<Value>, ts: seq<Type>, i: nat, exact: bool)
    requires i < |ts| - 1 && |vs| == |ts| && SizeAll(ts[..|ts| - 1]) <= |s|
    ensures var n := |ts| - 1; FieldIs(s, vs, ts, i, exact) <==> FieldIs(s[..SizeAll(ts[..n])], vs[..n], ts[..n], i, exact)
  {
    hide Layout, Size, SizeAll;
    var n := |ts| - 1;
    var k, lo := SizeAll(ts[..n]), SizeAll(ts[..i]);
    assert ts[..n][..i] == ts[..i] && ts[..n][..i + 1] == ts[..i + 1];
    SizeOfPrefix(ts, i);
    SizeOfPrefix(ts[..n], i + 1);
    var hi := lo + Size(ts[i]);
    assert hi <= k;
    assert s[..k][lo..hi] == s[lo..hi];
  }

  /** Each field lies behind the fields before it. */
  lemma {:induction false} FieldsAre(s: seq<byte>, vs: seq<Value>, ts: seq<Type>, exact: bool)
    requires |vs| == |ts| && |s| == SizeAll(ts)
    ensures FieldLayout(s, vs, ts, exact) <==> forall i :: 0 <= i < |ts| ==> FieldIs(s, vs, ts, i, exact)
    decreases |ts|
  {
    hide Layout, Size;
    if ts != [] {
      var n := |ts| - 1;
      var k := SizeAll(ts[..n]);
      FieldsAre(s[..k], vs[..n], ts[..n], exact);
      forall i | 0 <= i < n ensures FieldIs(s, vs, ts, i, exact) <==> FieldIs(s[..k], vs[..n], ts[..n], i, exact) {
        FieldOfPrefix(s, vs, ts, i, exact);
      }
      assert FieldIs(s, vs, ts, n, exact) <==> Layout(s[k..], vs[n], ts[n], exact) by { assert s[k..k + Size(ts[n])] == s[k..]; }
    }
  }

  ghost predicate FieldIs(s: seq<byte>, vs: seq<Value>, ts: seq<Type>, i: nat, exact: bool)
    requires |vs| == |ts| && i < |ts|
  {
    var lo := SizeAll(ts[..i]);
    lo + Size(ts[i]) <= |s| && Layout(s[lo..lo + Size(ts[i])], vs[i], ts[i], exact)
  }

  /** An array of bytes is these bytes. */
  lemma {:induction false} BytesAre(s: seq<byte>, vs: seq<Value>, exact: bool)
    requires forall i :: 0 <= i < |vs| ==> HasType(vs[i], UInt(1))
    ensures ArrayLayout(s, vs, UInt(1), exact) <==> |s| == |vs| && forall i :: 0 <= i < |vs| ==> vs[i] == Number(s[i] as int)
    decreases |vs|
  {
    hide Layout, HasType;
    if vs != [] {
      var n, k := |vs| - 1, |s| - 1;
      if k >= 0 {
        BytesAre(s[..k], vs[..n], exact);
        OneByte(s[k..], vs[n], exact);
        assert |s| == |vs| ==> forall i :: 0 <= i < n ==> s[..k][i] == s[i];
      }
    }
  }

  lemma OneByte(s: seq<byte>, v: Value, exact: bool)
    requires HasType(v, UInt(1))
    ensures Layout(s, v, UInt(1), exact) <==> |s| == 1 && v == Number(s[0] as int)
  {
    assert B.Pow256(0) == 1 && B.Pow256(1) == 256;
    if |s| == 1 {
      B.DigitsAre(s, v.number);
      assert B.Decode(s[..0]) == 0;
    }
  }

  // ---- Writing into and reading from a buffer.

  method Put(b: array<byte>, at: nat, data: seq<byte>)
    requires at + |data| <= b.Length
    modifies b
    ensures b[..] == Splice(old(b[..]), at, data)
  {
    forall i | 0 <= i < |data| {
      b[at + i] := data[i];
    }
  }

  lemma SpliceNext(s: seq<byte>, at: nat, d: seq<byte>, d': seq<byte>, whole: seq<byte>)
    requires at + |d| + |d'| <= |s| && whole == d + d'
    ensures Splice(Splice(s, at, d), at + |d|, d') == Splice(s, at, whole)
  {}

  lemma SpliceWindow(s: seq<byte>, at: nat, d: seq<byte>)
    requires at + |d| <= |s|
    ensures Splice(s, at, d)[at..at + |d|] == d
  {}

  /** Writes the bytes of a value and returns the position behind them. Other bytes stay as they are. */
  method Serialize(v: Value, t: Type, b: array<byte>, at: nat) returns (next: nat)
    requires Fits(t) && HasType(v, t) && at + Size(t) <= b.Length
    modifies b
    ensures next == at + Size(t) && b[..] == Splice(old(b[..]), at, Encode(v, t)) && Layout(b[at..next], v, t, true)
    decreases t, 0
  {
    hide Splice, Layout;
    next := at + Size(t);
    EncodeIs(v, t, Encode(v, t));
    SpliceWindow(old(b[..]), at, Encode(v, t));
    match t
    case UInt(n) => Put(b, at, B.Encode(v.number, n));
    case SInt(n) => Put(b, at, B.Encode(Unsigned(v.number, n), n));
    case Bool => Put(b, at, [if v.flag then 1 else 0]);
    case Unit => SpliceNothing(b[..], at);
    case Array(e, n) => SerializeArray(v.items, e, b, at);
    case Tuple(ts) => SerializeAll(v.items, ts, b, at);
    case Optional(e) =>
      if v.Present? {
        Put(b, at, [1]);
        var end := Serialize(v.content, e, b, at + 1);
        SpliceNext(old(b[..]), at, [1], Encode(v.content, e), Encode(v, t));
      } else {
        Put(b, at, Zeros(Size(t)));
      }
    case Variant(ts, sizes) =>
      SerializeVariant(v, ts, sizes, b, at);
  }

  method SerializeVariant(v: Value, ts: seq<Type>, sizes: seq<nat>, b: array<byte>, at: nat)
    requires Fits(Variant(ts, sizes)) && HasType(v, Variant(ts, sizes)) && at + Size(Variant(ts, sizes)) <= b.Length
    modifies b
    ensures b[..] == Splice(old(b[..]), at, Encode(v, Variant(ts, sizes)))
    decreases ts, 0
  {
    hide Splice;
    var end := at + Size(Variant(ts, sizes));
    var tag, inner := [v.which as byte], ts[v.which];
    Put(b, at, tag);
    var p := Serialize(v.content, inner, b, at + 1);
    SpliceNext(old(b[..]), at, tag, Encode(v.content, inner), tag + Encode(v.content, inner));
    Put(b, p, Zeros(end - p));
    SpliceNext(old(b[..]), at, tag + Encode(v.content, inner), Zeros(end - p), Encode(v, Variant(ts, sizes)));
  }

  method SerializeArray(vs: seq<Value>, e: Type, b: array<byte>, at: nat)
    requires Fits(e) && (forall i :: 0 <= i < |vs| ==> HasType(vs[i], e)) && at + |vs| * Size(e) <= b.Length
    modifies b
    ensures b[..] == Splice(old(b[..]), at, EncodeArray(vs, e))
    decreases e, 1
  {
    hide Splice, Encode, HasType, Fits, Size, EncodeArray;
    var p, i := at, 0;
    ghost var done := [];
    SpliceNothing(b[..], at);
    ArrayPrefix(vs, e, 0);
    while i < |vs|
      invariant i <= |vs| && done == EncodeArray(vs[..i], e) && p == at + |done| && p <= b.Length
      invariant b[..] == Splice(old(b[..]), at, done)
    {
      ArrayPrefix(vs, e, i);
      p := Serialize(vs[i], e, b, p);
      SpliceNext(old(b[..]), at, done, Encode(vs[i], e), EncodeArray(vs[..i + 1], e));
      done := EncodeArray(vs[..i + 1], e);
      i := i + 1;
    }
    assert vs[..i] == vs;
  }

  lemma ArrayPrefix(vs: seq<Value>, e: Type, i: nat)
    requires Fits(e) && (forall k :: 0 <= k < |vs| ==> HasType(vs[k], e)) && i <= |vs|
    ensures i == 0 ==> EncodeArray(vs[..i], e) == []
    ensures i < |vs| ==> EncodeArray(vs[..i + 1], e) == EncodeArray(vs[..i], e) + Encode(vs[i], e)
    ensures i < |vs| ==> |EncodeArray(vs[..i], e)| + Size(e) <= |vs| * Size(e)
  {
    hide Encode, HasType, Fits, Size;
    if i < |vs| {
      assert vs[..i + 1][..i] == vs[..i];
      MulMono(i + 1, |vs|, Size(e));
      MulStep(i, Size(e));
    }
  }

  lemma SizeOfPrefix(ts: seq<Type>, n: nat)
    requires n <= |ts|
    ensures SizeAll(ts[..n]) <= SizeAll(ts)
    ensures n < |ts| ==> SizeAll(ts[..n + 1]) == SizeAll(ts[..n]) + Size(ts[n])
    decreases |ts|
  {
    hide Size;
    if n < |ts| {
      assert ts[..n + 1][..n] == ts[..n];
      SizeOfPrefix(ts[..|ts| - 1], n);
      assert ts[..|ts| - 1][..n] == ts[..n];
    } else {
      assert ts[..n] == ts;
    }
  }

  method SerializeAll(vs: seq<Value>, ts: seq<Type>, b: array<byte>, at: nat)
    requires |vs| == |ts| && (forall i :: 0 <= i < |ts| ==> Fits(ts[i]) && HasType(vs[i], ts[i])) && at + SizeAll(ts) <= b.Length
    modifies b
    ensures b[..] == Splice(old(b[..]), at, EncodeAll(vs, ts))
    decreases ts, 0
  {
    hide Splice, Encode, HasType, Fits, Size;
    var p, i := at, 0;
    SpliceNothing(b[..], at);
    while i < |ts|
      invariant i <= |ts| && p == at + SizeAll(ts[..i]) <= b.Length
      invariant b[..] == Splice(old(b[..]), at, EncodeAll(vs[..i], ts[..i]))
    {
      SizeOfPrefix(ts, i);
      SizeOfPrefix(ts, i + 1);
      p := Serialize(vs[i], ts[i], b, p);
      assert vs[..i + 1][..i] == vs[..i] && ts[..i + 1][..i] == ts[..i];
      SpliceNext(old(b[..]), at, EncodeAll(vs[..i], ts[..i]), Encode(vs[i], ts[i]), EncodeAll(vs[..i + 1], ts[..i + 1]));
      i := i + 1;
    }
    assert vs[..i] == vs && ts[..i] == ts;
  }

  /** The largest of the in-memory sizes, as the loop computes it. */
  method MaxSize(sizes: seq<nat>) returns (max: nat)
    ensures max == MaxOf(sizes)
  {
    max := 0;
    var i := 0;
    while i < |sizes|
      invariant i <= |sizes| && max == MaxOf(sizes[..i])
    {
      assert sizes[..i + 1][..i] == sizes[..i];
      if sizes[i] > max {
        max := sizes[i];
      }
      i := i + 1;
    }
    assert sizes[..i] == sizes;
  }

  /** Reads a value from a buffer. */
  method Deserialize(t: Type, b: seq<byte>, at: nat) returns (r: Result<Value, Corruption>)
    requires Fits(t) && at + Size(t) <= |b|
    ensures r == Decode(t, b[at..at + Size(t)])
    ensures forall v :: r == Success(v) <==> HasType(v, t) && Layout(b[at..at + Size(t)], v, t, false)
    decreases t, 0
  {
    hide HasType, MaxOf, Layout;
    var s := b[at..at + Size(t)];
    forall v ensures Decode(t, s) == Success(v) <==> HasType(v, t) && Layout(s, v, t, false) {
      DecodeIs(t, s, v);
    }
    match t
    case UInt(n) => r := Success(Number(B.Decode(s)));
    case SInt(n) => r := Success(Number(Signed(B.Decode(s), n)));
    case Bool => r := Success(Flag(s[0] != 0));
    case Unit => r := Success(Nothing);
    case Array(e, n) =>
      var items := DeserializeArray(e, n, b, at);
      r := if items.Success? then Success(List(items.value)) else Failure(items.error);
    case Tuple(ts) =>
      var items := DeserializeAll(ts, b, at);
      r := if items.Success? then Success(List(items.value)) else Failure(items.error);
    case Optional(e) => r := DeserializeOptional(e, b, at);
    case Variant(ts, sizes) => r := DeserializeVariant(ts, sizes, b, at);
  }

  lemma DecodeOptional(e: Type, s: seq<byte>)
    requires Fits(e) && |s| == 1 + Size(e)
    ensures var v := Decode(e, s[1..1 + Size(e)]);
            Decode(Optional(e), s) ==
            if s[0] == 0 then Success(Absent)
            else if s[0] == 1 then if v.Success? then Success(Present(v.value)) else v
            else Failure(BadFlag(s[0]))
  {
    hide HasType;
    assert s[1..] == s[1..1 + Size(e)];
  }

  method DeserializeOptional(e: Type, b: seq<byte>, at: nat) returns (r: Result<Value, Corruption>)
    requires Fits(e) && at + 1 + Size(e) <= |b|
    ensures r == Decode(Optional(e), b[at..at + (1 + Size(e))])
    decreases e, 1
  {
    hide HasType, Fits, Decode, Size;
    DecodeOptional(e, b[at..at + (1 + Size(e))]);
    if b[at] == 0 {
      return Success(Absent);
    }
    if b[at] == 1 {
      var v := Deserialize(e, b, at + 1);
      SliceOfSlice(b, at, 1 + Size(e), 1, Size(e));
      return if v.Success? then Success(Present(v.value)) else v;
    }
    return Failure(BadFlag(b[at]));
  }

  lemma DecodeVariant(ts: seq<Type>, sizes: seq<nat>, s: seq<byte>)
    requires Fits(Variant(ts, sizes)) && |s| == 1 + MaxOf(sizes)
    ensures s[0] as nat >= |ts| ==> Decode(Variant(ts, sizes), s) == Failure(BadTag(s[0]))
    ensures (s[0] as nat) < |ts| ==>
              && Fits(ts[s[0]]) && 1 + Size(ts[s[0]]) <= |s|
              && var v := Decode(ts[s[0]], s[1..1 + Size(ts[s[0]])]);
                 Decode(Variant(ts, sizes), s) == if v.Success? then Success(Choice(s[0] as nat, v.value)) else v
  {}

  method DeserializeVariant(ts: seq<Type>, sizes: seq<nat>, b: seq<byte>, at: nat) returns (r: Result<Value, Corruption>)
    requires Fits(Variant(ts, sizes)) && at + (1 + MaxOf(sizes)) <= |b|
    ensures r == Decode(Variant(ts, sizes), b[at..at + (1 + MaxOf(sizes))])
    decreases ts, 0
  {
    hide HasType, MaxOf, Fits, Decode, Size;
    DecodeVariant(ts, sizes, b[at..at + (1 + MaxOf(sizes))]);
    var which := b[at];
    if which as nat >= |ts| {
      return Failure(BadTag(which));
    }
    var inner := ts[which];
    var v := Deserialize(inner, b, at + 1);
    SliceOfSlice(b, at, 1 + MaxOf(sizes), 1, Size(inner));
    return if v.Success? then Success(Choice(which as nat, v.value)) else v;
  }

  lemma ArrayStep(e: Type, n: nat, i: nat)
    requires i < n
    ensures i * Size(e) + Size(e) <= n * Size(e) && (i + 1) * Size(e) == i * Size(e) + Size(e)
  {
    hide Size;
    MulMono(i + 1, n, Size(e));
    MulStep(i, Size(e));
  }

  /** Reading one more element. */
  lemma ElementStep(e: Type, n: nat, s: seq<byte>, i: nat)
    requires Fits(e) && |s| == n * Size(e) && i < n
    ensures i * Size(e) + Size(e) == (i + 1) * Size(e) <= |s|
    ensures var k := i * Size(e);
            var items, v := DecodeArray(e, i, s[..k]), Decode(e, s[k..k + Size(e)]);
            DecodeArray(e, i + 1, s[..(i + 1) * Size(e)]) ==
            if items.Failure? then items else if v.Failure? then Failure(v.error) else Success(items.value + [v.value])
  {
    hide Size, Fits, HasType, Decode;
    ArrayStep(e, n, i);
    var k, k' := i * Size(e), (i + 1) * Size(e);
    var next := s[..k'];
    assert next[..k] == s[..k] && next[k..] == s[k..k'];
  }

  /** An element that cannot be read makes the whole array unreadable, with the same error. */
  lemma {:induction false} ArrayFails(e: Type, n: nat, s: seq<byte>, i: nat)
    requires Fits(e) && |s| == n * Size(e) && i <= n && i * Size(e) <= n * Size(e) && DecodeArray(e, i, s[..i * Size(e)]).Failure?
    ensures DecodeArray(e, n, s) == DecodeArray(e, i, s[..i * Size(e)])
    decreases n - i
  {
    hide Size, Fits, HasType, Decode, DecodeArray;
    if i == n {
      assert s[..|s|] == s;
    } else {
      ElementStep(e, n, s, i);
      ArrayFails(e, n, s, i + 1);
    }
  }

  method DeserializeArray(e: Type, n: nat, b: seq<byte>, at: nat) returns (r: Result<seq<Value>, Corruption>)
    requires Fits(e) && at + n * Size(e) <= |b|
    ensures r == DecodeArray(e, n, b[at..at + n * Size(e)])
    decreases e, 1
  {
    hide Size, Fits, HasType, Decode;
    ghost var s := b[at..at + n * Size(e)];
    var items, p, i := [], at, 0;
    ghost var k: nat := 0;
    while i < n
      invariant i <= n && k == i * Size(e) <= |s| && p == at + k
      invariant DecodeArray(e, i, s[..k]) == Success(items)
    {
      ElementStep(e, n, s, i);
      SliceOfSlice(b, at, n * Size(e), k, Size(e));
      var v := Deserialize(e, b, p);
      if v.Failure? {
        ArrayFails(e, n, s, i + 1);
        return Failure(v.error);
      }
      k := k + Size(e);
      items, p, i := items + [v.value], p + Size(e), i + 1;
    }
    assert s[..|s|] == s;
    return Success(items);
  }

  /** Reading one more field. */
  lemma FieldStep(ts: seq<Type>, s: seq<byte>, i: nat)
    requires (forall k :: 0 <= k < |ts| ==> Fits(ts[k])) && |s| == SizeAll(ts) && i < |ts|
    ensures SizeAll(ts[..i]) + Size(ts[i]) == SizeAll(ts[..i + 1]) <= |s|
    ensures var k := SizeAll(ts[..i]);
            var items, v := DecodeAll(ts[..i], s[..k]), Decode(ts[i], s[k..k + Size(ts[i])]);
            DecodeAll(ts[..i + 1], s[..SizeAll(ts[..i + 1])]) ==
            if items.Failure? then items else if v.Failure? then Failure(v.error) else Success(items.value + [v.value])
  {
    hide Size, Fits, HasType, Decode;
    SizeOfPrefix(ts, i);
    SizeOfPrefix(ts, i + 1);
    var k, k' := SizeAll(ts[..i]), SizeAll(ts[..i + 1]);
    var next := s[..k'];
    assert ts[..i + 1][..i] == ts[..i] && next[..k] == s[..k] && next[k..] == s[k..k'];
  }

  lemma {:induction false} FieldFails(ts: seq<Type>, s: seq<byte>, i: nat)
    requires (forall k :: 0 <= k < |ts| ==> Fits(ts[k])) && |s| == SizeAll(ts) && i <= |ts| && SizeAll(ts[..i]) <= |s|
    requires DecodeAll(ts[..i], s[..SizeAll(ts[..i])]).Failure?
    ensures DecodeAll(ts, s) == DecodeAll(ts[..i], s[..SizeAll(ts[..i])])
    decreases |ts| - i
  {
    hide Size, Fits, HasType, Decode;
    if i == |ts| {
      assert ts[..i] == ts && s[..|s|] == s;
    } else {
      FieldStep(ts, s, i);
      FieldFails(ts, s, i + 1);
    }
  }

  lemma NoFields(ts: seq<Type>, s: seq<byte>)
    ensures SizeAll(ts[..0]) == 0 && DecodeAll(ts[..0], s[..0]) == Success([])
  {}

  method DeserializeAll(ts: seq<Type>, b: seq<byte>, at: nat) returns (r: Result<seq<Value>, Corruption>)
    requires (forall k :: 0 <= k < |ts| ==> Fits(ts[k])) && at + SizeAll(ts) <= |b|
    ensures r == DecodeAll(ts, b[at..at + SizeAll(ts)])
    decreases ts, 0
  {
    hide Size, SizeAll, Fits, HasType, Decode, DecodeAll;
    ghost var s := b[at..at + SizeAll(ts)];
    var items, p, i := [], at, 0;
    NoFields(ts, s);
    while i < |ts|
      invariant i <= |ts| && SizeAll(ts[..i]) <= |s| && p == at + SizeAll(ts[..i])
      invariant DecodeAll(ts[..i], s[..SizeAll(ts[..i])]) == Success(items)
    {
      FieldStep(ts, s, i);
      SliceOfSlice(b, at, SizeAll(ts), SizeAll(ts[..i]), Size(ts[i]));
      var v := Deserialize(ts[i], b, p);
      if v.Failure? {
        FieldFails(ts, s, i + 1);
        return Failure(v.error);
      }
      items, p, i := items + [v.value], p + Size(ts[i]), i + 1;
    }
    assert ts[..i] == ts && s[..|s|] == s;
    return Success(items);
  }

  lemma {:induction false} DecodedPrefix(ts: seq<Type>, s: seq<byte>, n: nat, k: nat)
    requires (forall i :: 0 <= i < |ts| ==> Fits(ts[i])) && |s| == SizeAll(ts) && k < n <= |ts| && SizeAll(ts[..n]) <= |s|
    requires DecodeAll(ts[..n], s[..SizeAll(ts[..n])]).Success?
    ensures SizeAll(ts[..k]) + Size(ts[k]) <= |s|
    ensures Decode(ts[k], s[SizeAll(ts[..k])..SizeAll(ts[..k]) + Size(ts[k])]) == Success(DecodeAll(ts[..n], s[..SizeAll(ts[..n])]).value[k])
    decreases n
  {
    hide Size, SizeAll, Fits, HasType, Decode, DecodeAll;
    FieldStep(ts, s, n - 1);
    if k < n - 1 {
      DecodedPrefix(ts, s, n - 1, k);
    }
  }

  /** A field of a struct that can be read is what its own bytes say. */
  lemma DecodedField(ts: seq<Type>, s: seq<byte>, k: nat)
    requires (forall i :: 0 <= i < |ts| ==> Fits(ts[i])) && |s| == SizeAll(ts) && k < |ts| && DecodeAll(ts, s).Success?
    ensures SizeAll(ts[..k]) + Size(ts[k]) <= |s|
    ensures Decode(ts[k], s[SizeAll(ts[..k])..SizeAll(ts[..k]) + Size(ts[k])]) == Success(DecodeAll(ts, s).value[k])
  {
    hide Size, SizeAll, Fits, HasType, Decode, DecodeAll;
    assert ts[..|ts|] == ts && s[..|s|] == s;
    DecodedPrefix(ts, s, |ts|, k);
  }
}
