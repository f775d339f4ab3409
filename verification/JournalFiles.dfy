/**
The files of a transactional database, and what a crash can leave of them.
*/
module JournalFiles {
  import opened Blocks
  import opened JournalLog

  /** `data` written at `at`, where the file may end. */
  function Overwrite(s: seq<byte>, at: nat, data: seq<byte>): seq<byte>
    requires at <= |s|
  {
    s[..at] + data + if at + |data| < |s| then s[at + |data|..] else []
  }

  /** What a crash can leave of a single write. */
  ghost predicate PartOf(s: seq<byte>, at: nat, data: seq<byte>, part: seq<byte>)
    requires at <= |s|
  {
    exists k :: 0 <= k <= |data| && part == Overwrite(s, at, data[..k])
  }

  /** A file whose writes reach the disk in their order, up to some byte of some write, and all of them with a sync. */
  class LogFile {
    var content: seq<byte>

    /** What a crash may leave behind now, and what it could have left since recording started. */
    ghost var images: iset<seq<byte>>
    ghost var seen: iset<seq<byte>>

    ghost predicate Valid()
      reads this
    {
      content in images && images <= seen
    }

    constructor (content: seq<byte>)
      ensures Valid() && this.content == content && images == seen == iset{content}
    {
      this.content, images, seen := content, iset{content}, iset{content};
    }

    method Write(at: nat, data: seq<byte>)
      requires Valid() && at <= |content|
      modifies this
      ensures Valid() && content == Overwrite(old(content), at, data)
      ensures forall s :: s in images <==> s in old(images) || PartOf(old(content), at, data, s)
      ensures forall s :: s in seen <==> s in old(seen) || PartOf(old(content), at, data, s)
    {
      ghost var parts := iset s: seq<byte> | PartOf(content, at, data, s);
      assert data[..|data|] == data;
      images, seen := images + parts, seen + parts;
      content := Overwrite(content, at, data);
    }

    method Truncate(n: nat)
      requires Valid() && n <= |content|
      modifies this
      ensures Valid() && content == old(content)[..n] && images == old(images) + iset{content} && seen == old(seen) + iset{content}
    {
      content := content[..n];
      images, seen := images + iset{content}, seen + iset{content};
    }

    method Sync()
      requires Valid()
      modifies this`images
      ensures Valid() && images == iset{content}
    {
      images := iset{content};
    }

    /** Starts to record what a crash may leave behind. */
    ghost method Watch()
      requires Valid()
      modifies this`seen
      ensures Valid() && seen == images
    {
      seen := images;
    }
  }

  /** Nothing but block `i` differs. */
  ghost predicate DiffersAt(file: seq<Block>, file': seq<Block>, bs: nat, i: nat) {
    (|file'| <= |file| || |file'| <= i + 1) && forall j: nat :: j != i ==> At(file', bs, j) == At(file, bs, j)
  }

  /** The first `n` blocks are the same, and there are no others. */
  ghost predicate SameBelow(file: seq<Block>, file': seq<Block>, bs: nat, n: nat) {
    |file'| <= n && forall j: nat :: j < n ==> At(file', bs, j) == At(file, bs, j)
  }

  /** What a crash can leave after a write of block `i`. */
  ghost predicate AfterWrite(images: iset<seq<Block>>, file: seq<Block>, bs: nat, i: nat) {
    exists before :: before in images && DiffersAt(before, file, bs, i)
  }

  /** What a crash can leave after a change of the size to `n` blocks. */
  ghost predicate AfterResize(images: iset<seq<Block>>, file: seq<Block>, bs: nat, n: nat) {
    file in images || exists before :: before in images && SameBelow(before, file, bs, n)
  }

  function Resized(file: seq<Block>, bs: nat, n: nat): seq<Block> {
    seq(n, j requires 0 <= j => At(file, bs, j))
  }

  /**
  A file whose changes reach the disk in any order, or in part: until the next sync a crash can leave anything in
  place of the blocks that were written.
  */
  class DatabaseFile {
    const bs: nat
    var blocks: seq<Block>
    ghost var images: iset<seq<Block>>
    ghost var seen: iset<seq<Block>>

    ghost predicate Valid()
      reads this
    {
      blocks in images && images <= seen
    }

    constructor (bs: nat, blocks: seq<Block>)
      ensures Valid() && this.bs == bs && this.blocks == blocks && images == seen == iset{blocks}
    {
      this.bs, this.blocks, images, seen := bs, blocks, iset{blocks}, iset{blocks};
    }

    method Write(i: nat, data: Block)
      requires Valid() && i < |blocks|
      modifies this
      ensures Valid() && blocks == old(blocks)[i := data]
      ensures forall s :: s in images <==> AfterWrite(old(images), s, bs, i)
      ensures seen == old(seen) + images
    {
      ghost var all := iset s: seq<Block> | AfterWrite(images, s, bs, i);
      assert DiffersAt(blocks, blocks[i := data], bs, i);
      blocks := blocks[i := data];
      images, seen := all, seen + all;
    }

    method Resize(n: nat)
      requires Valid()
      modifies this
      ensures Valid() && blocks == Resized(old(blocks), bs, n)
      ensures forall s :: s in images <==> AfterResize(old(images), s, bs, n)
      ensures seen == old(seen) + images
    {
      ghost var all := iset s: seq<Block> | AfterResize(images, s, bs, n);
      assert SameBelow(blocks, Resized(blocks, bs, n), bs, n);
      blocks := Resized(blocks, bs, n);
      images, seen := all, seen + all;
    }

    method Sync()
      requires Valid()
      modifies this`images
      ensures Valid() && images == iset{blocks}
    {
      images := iset{blocks};
    }

    /** Starts to record what a crash may leave behind. */
    ghost method Watch()
      requires Valid()
      modifies this`seen
      ensures Valid() && seen == images
    {
      seen := images;
    }
  }
}
