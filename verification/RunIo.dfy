/**
Byte access to a run of consecutive blocks.
*/
module RunIo {
  import opened Blocks
  import opened Runs
  import A = Allocator

  lemma RunInFile(total: nat, bs: nat, c: nat, n: nat)
    requires c + n <= total
    ensures c * bs + n * bs <= total * bs && (c + n) * bs == c * bs + n * bs
  {}

  /** The bytes of a run are a window of the bytes of the file. */
  lemma RunFlat(blocks: seq<Block>, bs: nat, c: nat, n: nat)
    requires Uniform(blocks, bs) && c + n <= |blocks|
    ensures Uniform(blocks[c..c + n], bs) && c * bs + n * bs <= |blocks| * bs
    ensures Flat(blocks[c..c + n], bs) == Flat(blocks, bs)[c * bs..c * bs + n * bs]
  {
    RunInFile(|blocks|, bs, c, n);
    var run := blocks[c..c + n];
    forall a | 0 <= a < n * bs ensures ByteAt(run, bs, a) == ByteAt(blocks, bs, c * bs + a) {
      ShiftedByte(blocks, bs, c, n, a);
    }
  }

  lemma ShiftDiv(a: nat, bs: nat, c: nat)
    requires bs > 0
    ensures (c * bs + a) / bs == c + a / bs && (c * bs + a) % bs == a % bs
  {
    var q := a / bs;
    assert a == q * bs + a % bs;
    MulDist(c, q, bs);
    DivUnique(c * bs + a, bs, c + q);
  }

  lemma ShiftedByte(blocks: seq<Block>, bs: nat, c: nat, n: nat, a: nat)
    requires Uniform(blocks, bs) && c + n <= |blocks| && a < n * bs && c * bs + a < |blocks| * bs
    requires Uniform(blocks[c..c + n], bs)
    ensures ByteAt(blocks[c..c + n], bs, a) == ByteAt(blocks, bs, c * bs + a)
  {
    hide ByteAt, Uniform;
    var q, r := a / bs, a % bs;
    ShiftDiv(a, bs, c);
    ByteIs(blocks[c..c + n], bs, a, q, r);
    ByteIs(blocks, bs, c * bs + a, c + q, r);
    assert blocks[c..c + n][q] == blocks[c + q];
  }

  lemma BlockOutside(blocks: seq<Block>, blocks': seq<Block>, bs: nat, at: nat, data: seq<byte>, b: nat)
    requires Uniform(blocks, bs) && Uniform(blocks', bs) && |blocks| == |blocks'| && b < |blocks|
    requires at + |data| <= |blocks| * bs && Flat(blocks', bs) == Splice(Flat(blocks, bs), at, data)
    requires b * bs + bs <= at || at + |data| <= b * bs
    ensures blocks'[b] == blocks[b]
  {
    hide Flat, Uniform;
    BlockWindow(blocks, bs, b);
    BlockWindow(blocks', bs, b);
    var f, f' := Flat(blocks, bs), Flat(blocks', bs);
    assert f'[b * bs..b * bs + bs] == f[b * bs..b * bs + bs];
  }

  lemma SpliceOutsideRun(blocks: seq<Block>, blocks': seq<Block>, bs: nat, c: nat, n: nat, at: nat, data: seq<byte>)
    requires Uniform(blocks, bs) && Uniform(blocks', bs) && |blocks| == |blocks'| && c + n <= |blocks|
    requires at + |data| <= n * bs && c * bs + n * bs <= |blocks| * bs
    requires Flat(blocks', bs) == Splice(Flat(blocks, bs), c * bs + at, data)
    ensures A.Kept(blocks, blocks', Range(c, c + n))
  {
    hide Flat, Range, Uniform, Splice, A.Kept;
    var start, from := c * bs, c * bs + at;
    assert start <= from && from + |data| <= start + n * bs;
    forall b | 0 <= b < |blocks| && !(c <= b < c + n) ensures blocks'[b] == blocks[b] {
      WindowOutside(b, c, n, bs);
      BlockOutside(blocks, blocks', bs, from, data, b);
    }
    A.Copied(blocks, blocks', c, n);
  }

  /** Writing inside a run changes the bytes of the run and no other block. */
  lemma SpliceInRun(blocks: seq<Block>, blocks': seq<Block>, bs: nat, c: nat, n: nat, at: nat, data: seq<byte>)
    requires Uniform(blocks, bs) && Uniform(blocks', bs) && |blocks| == |blocks'| && c + n <= |blocks|
    requires at + |data| <= n * bs && c * bs + n * bs <= |blocks| * bs
    requires Flat(blocks', bs) == Splice(Flat(blocks, bs), c * bs + at, data)
    ensures A.Kept(blocks, blocks', Range(c, c + n))
    ensures Uniform(blocks[c..c + n], bs) && Uniform(blocks'[c..c + n], bs)
    ensures Flat(blocks'[c..c + n], bs) == Splice(Flat(blocks[c..c + n], bs), at, data)
  {
    hide Flat, Range, Uniform, Splice, A.Kept;
    SpliceOutsideRun(blocks, blocks', bs, c, n, at, data);
    RunFlat(blocks, bs, c, n);
    RunFlat(blocks', bs, c, n);
    SpliceWindow(Flat(blocks, bs), c * bs, n * bs, at, data);
  }

  lemma SpliceWindow(f: seq<byte>, lo: nat, len: nat, at: nat, data: seq<byte>)
    requires lo + len <= |f| && at + |data| <= len
    ensures Splice(f, lo + at, data)[lo..lo + len] == Splice(f[lo..lo + len], at, data)
  {}

  /** Reading inside a run. */
  lemma RunWindow(blocks: seq<Block>, bs: nat, c: nat, n: nat, at: nat, size: nat)
    requires Uniform(blocks, bs) && c + n <= |blocks| && at + size <= n * bs
    ensures Uniform(blocks[c..c + n], bs) && c * bs + at + size <= |blocks| * bs
    ensures Flat(blocks, bs)[c * bs + at..c * bs + at + size] == Flat(blocks[c..c + n], bs)[at..at + size]
  {
    hide Flat, Uniform;
    RunFlat(blocks, bs, c, n);
    SliceOfSlice(Flat(blocks, bs), c * bs, n * bs, at, size);
  }
}
