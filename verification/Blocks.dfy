/**
A store of equally sized blocks and its reading as one flat array of bytes.
*/
module Blocks {

  newtype byte = x: int | 0 <= x < 256

  type Block = seq<byte>

  function Least(a: nat, b: nat): nat {
    if a < b then a else b
  }

  /** `data` put over the bytes of `s` that start at `at`. */
  function Splice(s: seq<byte>, at: nat, data: seq<byte>): (r: seq<byte>)
    requires at + |data| <= |s|
    ensures |r| == |s|
  {
    s[..at] + data + s[at + |data|..]
  }

  function Zeros(n: nat): (z: seq<byte>)
    ensures |z| == n && forall i :: 0 <= i < n ==> z[i] == 0
  {
    seq(n, _ => 0)
  }

  /** What memmove does to a flat array: read the source range, then write it. */
  function Memmove(s: seq<byte>, src: nat, dest: nat, size: nat): (r: seq<byte>)
    requires src + size <= |s| && dest + size <= |s|
    ensures |r| == |s|
  {
    Splice(s, dest, s[src..src + size])
  }

  lemma MemmoveSelf(s: seq<byte>, at: nat, size: nat)
    requires at + size <= |s|
    ensures Memmove(s, at, at, size) == s
  {}

  ghost predicate Uniform(blocks: seq<Block>, bs: nat) {
    bs > 0 && forall i :: 0 <= i < |blocks| ==> |blocks[i]| == bs
  }

  /** The byte at address `a`. */
  ghost function ByteAt(blocks: seq<Block>, bs: nat, a: nat): byte
    requires Uniform(blocks, bs) && a < |blocks| * bs
  {
    DivBelow(a, bs, |blocks|);
    blocks[a / bs][a % bs]
  }

  ghost function Flat(blocks: seq<Block>, bs: nat): (f: seq<byte>)
    requires Uniform(blocks, bs)
    ensures |f| == |blocks| * bs
    ensures forall a :: 0 <= a < |f| ==> f[a] == ByteAt(blocks, bs, a)
  {
    seq(|blocks| * bs, a requires 0 <= a < |blocks| * bs => ByteAt(blocks, bs, a))
  }

  lemma DivBelow(a: nat, bs: nat, n: nat)
    requires bs > 0 && a < n * bs
    ensures a / bs < n
  {}

  lemma MulMono(x: nat, y: nat, z: nat)
    requires x <= y
    ensures x * z <= y * z
  {}

  lemma MulStep(x: nat, z: nat)
    ensures (x + 1) * z == x * z + z
  {}

  lemma MulDist(c: nat, q: nat, bs: nat)
    ensures (c + q) * bs == c * bs + q * bs
  {}

  lemma WindowOutside(b: nat, c: nat, n: nat, bs: nat)
    requires b < c || c + n <= b
    ensures b * bs + bs <= c * bs || c * bs + n * bs <= b * bs
  {
    MulStep(b, bs);
    if b < c { MulMono(b + 1, c, bs); } else { MulMono(c + n, b, bs); MulDist(c, n, bs); }
  }

  lemma WindowInside(b: nat, c: nat, n: nat, bs: nat)
    requires c <= b < c + n
    ensures c * bs <= b * bs && b * bs + bs <= c * bs + n * bs
  {
    MulStep(b, bs);
    MulMono(c, b, bs);
    MulMono(b + 1, c + n, bs);
    MulDist(c, n, bs);
  }

  lemma DivUnique(a: nat, bs: nat, i: nat)
    requires bs > 0 && i * bs <= a < i * bs + bs
    ensures a / bs == i && a % bs == a - i * bs
  {
    var q := a / bs;
    if q < i {
      MulMono(q + 1, i, bs);
      MulStep(q, bs);
    } else if i < q {
      MulMono(i + 1, q, bs);
      MulStep(i, bs);
    }
  }

  lemma ByteIs(blocks: seq<Block>, bs: nat, a: nat, q: nat, r: nat)
    requires Uniform(blocks, bs) && a < |blocks| * bs && q == a / bs && r == a % bs
    ensures q < |blocks| && ByteAt(blocks, bs, a) == blocks[q][r]
  {
    DivBelow(a, bs, |blocks|);
  }

  /** Block `i` is the window of the flat array that starts at `i * bs`. */
  lemma BlockWindow(blocks: seq<Block>, bs: nat, i: nat)
    requires Uniform(blocks, bs) && i < |blocks|
    ensures i * bs + bs <= |blocks| * bs
    ensures Flat(blocks, bs)[i * bs..i * bs + bs] == blocks[i]
  {
    MulMono(i + 1, |blocks|, bs);
    MulStep(i, bs);
    forall o | 0 <= o < bs ensures Flat(blocks, bs)[i * bs + o] == blocks[i][o] {
      DivUnique(i * bs + o, bs, i);
    }
  }

  lemma ByteAfterSplice(blocks: seq<Block>, bs: nat, i: nat, block: Block, a: nat)
    requires Uniform(blocks, bs) && i < |blocks| && |block| == bs && a < |blocks| * bs
    ensures ByteAt(blocks[i := block], bs, a) ==
            if i * bs <= a < i * bs + bs then block[a - i * bs] else ByteAt(blocks, bs, a)
  {
    DivBelow(a, bs, |blocks|);
    if i * bs <= a < i * bs + bs {
      DivUnique(a, bs, i);
    } else {
      assert a == a / bs * bs + a % bs;
    }
  }

  /** Changing bytes inside one block changes exactly those bytes of the flat array. */
  lemma SpliceInBlock(blocks: seq<Block>, bs: nat, i: nat, off: nat, data: seq<byte>)
    requires Uniform(blocks, bs) && i < |blocks| && off + |data| <= bs
    ensures i * bs + bs <= |blocks| * bs
    ensures Flat(blocks[i := Splice(blocks[i], off, data)], bs) == Splice(Flat(blocks, bs), i * bs + off, data)
  {
    hide ByteAt;
    BlockWindow(blocks, bs, i);
    var start, block, f := i * bs, Splice(blocks[i], off, data), Flat(blocks, bs);
    var f', g := Flat(blocks[i := block], bs), Splice(f, start + off, data);
    forall a | 0 <= a < |f| ensures f'[a] == g[a] {
      ByteAfterSplice(blocks, bs, i, block, a);
      assert start <= a < start + bs ==> f[start..start + bs][a - start] == f[a];
    }
  }

  lemma SpliceTwice(s: seq<byte>, at: nat, d: seq<byte>, d': seq<byte>)
    requires at + |d| + |d'| <= |s|
    ensures Splice(Splice(s, at, d), at + |d|, d') == Splice(s, at, d + d')
  {}

  lemma SpliceNothing(s: seq<byte>, at: nat)
    requires at <= |s|
    ensures Splice(s, at, []) == s
  {}

  lemma SliceOfSlice(f: seq<byte>, lo: nat, len: nat, at: nat, size: nat)
    requires lo + len <= |f| && at + size <= len
    ensures f[lo..lo + len][at..at + size] == f[lo + at..lo + at + size]
  {
    var inner, outer := f[lo..lo + len][at..at + size], f[lo + at..lo + at + size];
    forall k | 0 <= k < size ensures inner[k] == outer[k] {
      assert inner[k] == f[lo..lo + len][at + k] == f[lo + (at + k)];
      assert outer[k] == f[(lo + at) + k];
    }
    assert |inner| == size == |outer|;
  }
}
