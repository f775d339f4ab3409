/**
Unsigned integers as bytes, most significant byte first.
*/
module BigEndian {
  import opened Blocks

  function Pow256(n: nat): (r: nat)
    ensures r > 0
  {
    if n == 0 then 1 else 256 * Pow256(n - 1)
  }

  function Encode(v: nat, n: nat): (s: seq<byte>)
    requires v < Pow256(n)
    ensures |s| == n
  {
    if n == 0 then [] else Encode(v / 256, n - 1) + [(v % 256) as byte]
  }

  function Decode(s: seq<byte>): (v: nat)
    ensures v < Pow256(|s|)
  {
    if |s| == 0 then 0 else Decode(s[..|s| - 1]) * 256 + s[|s| - 1] as nat
  }

  lemma {:induction false} DecodeEncode(v: nat, n: nat)
    requires v < Pow256(n)
    ensures Decode(Encode(v, n)) == v
  {
    if n > 0 {
      DecodeEncode(v / 256, n - 1);
      var s := Encode(v, n);
      assert s[..n - 1] == Encode(v / 256, n - 1);
    }
  }

  lemma {:induction false} EncodeDecode(s: seq<byte>)
    ensures Encode(Decode(s), |s|) == s
  {
    if |s| > 0 {
      EncodeDecode(s[..|s| - 1]);
    }
  }

  /** Byte `k` of a number: as many bytes follow it as places are behind it. */
  ghost predicate Digits(s: seq<byte>, v: nat) {
    forall k :: 0 <= k < |s| ==> s[k] as nat == v / Pow256(|s| - 1 - k) % 256
  }

  lemma DivideTwice(v: nat, p: nat)
    requires p > 0
    ensures v / (256 * p) == v / 256 / p
  {
    var q := v / 256;
    var d := q / p;
    assert d * (256 * p) == 256 * (d * p);
    DivUnique(v, 256 * p, d);
  }

  /** A number is written with its most significant byte first. */
  lemma {:induction false} EncodeDigits(v: nat, n: nat)
    requires v < Pow256(n)
    ensures Digits(Encode(v, n), v)
  {
    if n > 0 {
      EncodeDigits(v / 256, n - 1);
      var s, t := Encode(v, n), Encode(v / 256, n - 1);
      forall k | 0 <= k < n ensures s[k] as nat == v / Pow256(n - 1 - k) % 256 {
        if k < n - 1 {
          assert s[k] == t[k];
          DivideTwice(v, Pow256(n - 2 - k));
        }
      }
    }
  }

  /** The bytes that have the digits of a number are those that are written, and the number is what is read from them. */
  lemma {:induction false} DigitsAre(s: seq<byte>, v: nat)
    ensures v < Pow256(|s|) && Digits(s, v) <==> v == Decode(s)
    ensures v < Pow256(|s|) && Digits(s, v) ==> s == Encode(v, |s|)
  {
    hide Encode, Decode, Pow256;
    EncodeDecode(s);
    EncodeDigits(Decode(s), |s|);
    if v < Pow256(|s|) && Digits(s, v) {
      EncodeDigits(v, |s|);
      var t := Encode(v, |s|);
      forall k | 0 <= k < |s| ensures s[k] == t[k] {
      }
      assert s == t;
      DecodeEncode(v, |s|);
    }
  }

  lemma Pow256Of4()
    ensures Pow256(4) == 0x1_0000_0000
  {}

  const U32_END: nat := 0x1_0000_0000

  /** The value of `n` bytes at an offset. */
  function Get(b: Block, at: nat, n: nat): (v: nat)
    requires at + n <= |b|
    ensures v < Pow256(n)
  {
    Decode(b[at..at + n])
  }

  function Put(b: Block, at: nat, n: nat, v: nat): (r: Block)
    requires at + n <= |b| && v < Pow256(n)
    ensures |r| == |b|
  {
    Splice(b, at, Encode(v, n))
  }

  lemma GetOwn(b: Block, at: nat, n: nat, v: nat)
    requires at + n <= |b| && v < Pow256(n)
    ensures Get(Put(b, at, n, v), at, n) == v
  {
    hide Encode, Decode, Pow256;
    DecodeEncode(v, n);
    assert Put(b, at, n, v)[at..at + n] == Encode(v, n);
  }

  lemma GetOther(b: Block, at: nat, n: nat, v: nat, p: nat, m: nat)
    requires at + n <= |b| && v < Pow256(n) && p + m <= |b| && (p + m <= at || at + n <= p)
    ensures Get(Put(b, at, n, v), p, m) == Get(b, p, m)
  {
    hide Encode, Decode, Pow256;
    assert Put(b, at, n, v)[p..p + m] == b[p..p + m];
  }

  /** The 32-bit value at an offset. */
  function GetU32(b: Block, at: nat): (v: nat)
    requires at + 4 <= |b|
    ensures v < U32_END
  {
    Pow256Of4();
    Get(b, at, 4)
  }

  function PutU32(b: Block, at: nat, v: nat): (r: Block)
    requires at + 4 <= |b| && v < U32_END
    ensures |r| == |b|
  {
    Pow256Of4();
    Put(b, at, 4, v)
  }

  lemma GetAfterPut(b: Block, at: nat, v: nat, p: nat)
    requires at + 4 <= |b| && v < U32_END && p + 4 <= |b|
    ensures GetU32(PutU32(b, at, v), at) == v
    ensures p + 4 <= at || at + 4 <= p ==> GetU32(PutU32(b, at, v), p) == GetU32(b, p)
    ensures forall i :: 0 <= i < |b| && !(at <= i < at + 4) ==> PutU32(b, at, v)[i] == b[i]
  {
    hide Encode, Decode, Pow256, Get;
    Pow256Of4();
    GetOwn(b, at, 4, v);
    if p + 4 <= at || at + 4 <= p {
      GetOther(b, at, 4, v, p, 4);
    }
  }
}
