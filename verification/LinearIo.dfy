/**
Reading, writing, zeroing and copying byte ranges of a block engine as if it were one flat array.
*/
module LinearIo {
  import opened Blocks
  import opened Wrappers

  /**
  A copy of `size` bytes from `src` to `dest` that has done the bytes [lo, hi) of the range:
  they are in place, every source byte still to be read is intact, and so is everything
  outside the destination.
  */
  ghost predicate Partial(before: seq<byte>, now: seq<byte>, src: nat, dest: nat, size: nat, lo: nat, hi: nat) {
    && |now| == |before| && src + size <= |before| && dest + size <= |before| && lo <= hi <= size
    && (forall a :: dest + lo <= a < dest + hi ==> now[a] == before[a - dest + src])
    && (forall a :: 0 <= a < dest || dest + size <= a < |before| ==> now[a] == before[a])
    && (forall a :: src <= a < src + lo || src + hi <= a < src + size ==> now[a] == before[a])
  }

  lemma PartialStart(before: seq<byte>, src: nat, dest: nat, size: nat)
    requires src + size <= |before| && dest + size <= |before|
    ensures Partial(before, before, src, dest, size, 0, 0) && Partial(before, before, src, dest, size, size, size)
  {}

  lemma PartialDone(before: seq<byte>, now: seq<byte>, src: nat, dest: nat, size: nat)
    requires Partial(before, now, src, dest, size, 0, size)
    ensures now == Memmove(before, src, dest, size)
  {}

  /** Moving the next chunk upwards overwrites only source bytes that were read already. */
  lemma MoveUp(before: seq<byte>, now: seq<byte>, src: nat, dest: nat, size: nat, done: nat, chunk: nat)
    requires Partial(before, now, src, dest, size, 0, done) && done + chunk <= size
    requires src > dest || src + size <= dest
    ensures Partial(before, Memmove(now, src + done, dest + done, chunk), src, dest, size, 0, done + chunk)
  {}

  /** Zeroing ahead destroys no source byte when the two ranges are at least that far apart. */
  lemma ClearUp(before: seq<byte>, now: seq<byte>, src: nat, dest: nat, size: nat, done: nat, n: nat)
    requires Partial(before, now, src, dest, size, 0, done) && done + n <= size
    requires src >= dest + n || src + size <= dest
    ensures Partial(before, Splice(now, dest + done, Zeros(n)), src, dest, size, 0, done)
  {}

  lemma MoveDown(before: seq<byte>, now: seq<byte>, src: nat, dest: nat, size: nat, left: nat, chunk: nat)
    requires Partial(before, now, src, dest, size, left, size) && chunk <= left
    requires src < dest
    ensures Partial(before, Memmove(now, src + left - chunk, dest + left - chunk, chunk), src, dest, size, left - chunk, size)
  {}

  lemma ClearDown(before: seq<byte>, now: seq<byte>, src: nat, dest: nat, size: nat, left: nat, n: nat)
    requires Partial(before, now, src, dest, size, left, size) && n <= left
    requires src + n <= dest
    ensures Partial(before, Splice(now, dest + left - n, Zeros(n)), src, dest, size, left, size)
  {}

  /** The block engine: every handle to a block reads and writes the one buffer kept here. */
  class Engine {
    const blockSize: nat
    var blocks: seq<Block>

    ghost predicate Valid()
      reads this
    {
      blockSize > 0 && Uniform(blocks, blockSize)
    }

    ghost function Bytes(): (f: seq<byte>)
      requires Valid()
      reads this
    {
      Flat(blocks, blockSize)
    }

    constructor (blockSize: nat)
      requires blockSize > 0
      ensures Valid() && blocks == [] && this.blockSize == blockSize
    {
      this.blockSize := blockSize;
      blocks := [];
    }

    /** Adds `n` blocks with arbitrary content. */
    method Grow(n: nat)
      requires Valid()
      modifies this
      ensures Valid() && |blocks| == |old(blocks)| + n && blocks[..|old(blocks)|] == old(blocks)
    {
      var content: seq<Block> := *;
      if |content| != n || exists i :: 0 <= i < n && |content[i]| != blockSize {
        content := seq(n, _ => Zeros(blockSize));
      }
      blocks := blocks + content;
    }

    function ToBlock(address: nat): nat
      requires blockSize > 0
    {
      address / blockSize
    }

    function ToOffset(address: nat): (o: nat)
      requires blockSize > 0
      ensures o < blockSize
    {
      address % blockSize
    }

    /** Writes into the buffer of one block through a handle. */
    method Poke(index: nat, offset: nat, data: seq<byte>)
      requires Valid() && index < |blocks| && offset + |data| <= blockSize
      modifies this
      ensures Valid() && blocks == old(blocks)[index := Splice(old(blocks)[index], offset, data)]
      ensures index * blockSize + blockSize <= |old(Bytes())|
      ensures Bytes() == Splice(old(Bytes()), index * blockSize + offset, data)
    {
      SpliceInBlock(blocks, blockSize, index, offset, data);
      blocks := blocks[index := Splice(blocks[index], offset, data)];
    }

    /** Replaces a block; bytes beyond `data` become zero. */
    method Overwrite(index: nat, data: seq<byte>)
      requires Valid() && index < |blocks| && |data| <= blockSize
      modifies this
      ensures Valid() && blocks == old(blocks)[index := data + Zeros(blockSize - |data|)]
      ensures index * blockSize + blockSize <= |old(Bytes())|
      ensures Bytes() == Splice(old(Bytes()), index * blockSize, data + Zeros(blockSize - |data|))
    {
      hide Flat;
      var content := data + Zeros(blockSize - |data|);
      assert Splice(blocks[index], 0, content) == content;
      Poke(index, 0, content);
    }

    /** The block at an address inside the file exists. */
    lemma InFile(index: nat, offset: nat, address: nat)
      requires Valid() && address < |blocks| * blockSize
      requires index * blockSize + offset == address && offset < blockSize
      ensures index < |blocks| && ToBlock(address) == index && ToOffset(address) == offset
    {
      DivUnique(address, blockSize, index);
      DivBelow(address, blockSize, |blocks|);
    }

    /** Continues a write that has put `done` at `address` with `chunk`, inside one block. */
    method Put(index: nat, offset: nat, chunk: seq<byte>, ghost before: seq<byte>, ghost address: nat, ghost done: seq<byte>)
      requires Valid() && |before| == |blocks| * blockSize && address + |done| + |chunk| <= |before|
      requires Bytes() == Splice(before, address, done)
      requires |chunk| > 0 && offset + |chunk| <= blockSize && index * blockSize + offset == address + |done|
      modifies this
      ensures Valid() && |blocks| == |old(blocks)| && Bytes() == Splice(before, address, done + chunk)
    {
      hide Flat, Splice, Uniform;
      InFile(index, offset, address + |done|);
      if |chunk| == blockSize {
        assert chunk + Zeros(0) == chunk;
        Overwrite(index, chunk);
      } else {
        Poke(index, offset, chunk);
      }
      SpliceTwice(before, address, done, chunk);
    }

    /** The block-aligned rest of a write: as many whole blocks as possible, then a partial tail. */
    method WriteAligned(index: nat, data: seq<byte>, done: nat, ghost before: seq<byte>, ghost address: nat)
      requires Valid() && |before| == |blocks| * blockSize && address + |data| <= |before|
      requires done <= |data| && (done < |data| ==> index * blockSize == address + done)
      requires Bytes() == Splice(before, address, data[..done])
      modifies this
      ensures Valid() && |blocks| == |old(blocks)| && Bytes() == Splice(before, address, data)
    {
      hide Flat, Splice, Uniform;
      var i, n := index, done;
      while |data| - n >= blockSize
        invariant Valid() && |blocks| == |old(blocks)|
        invariant n <= |data| && (n < |data| ==> i * blockSize == address + n)
        invariant Bytes() == Splice(before, address, data[..n])
      {
        Put(i, 0, data[n..n + blockSize], before, address, data[..n]);
        assert data[..n] + data[n..n + blockSize] == data[..n + blockSize];
        MulStep(i, blockSize);
        i, n := i + 1, n + blockSize;
      }
      assert data[..n] + data[n..] == data;
      if n < |data| {
        Put(i, 0, data[n..], before, address, data[..n]);
      } else {
        assert data[..n] == data;
      }
    }

    /** Writes `data` to [address, address + |data|): partial head, whole blocks, partial tail. */
    method Write(address: nat, data: seq<byte>)
      requires Valid() && (|data| > 0 ==> address + |data| <= |blocks| * blockSize)
      modifies this
      ensures Valid() && |blocks| == |old(blocks)|
      ensures |data| == 0 ==> blocks == old(blocks)
      ensures |data| > 0 ==> Bytes() == Splice(old(Bytes()), address, data)
    {
      hide Flat, Splice, Uniform;
      if |data| == 0 {
        return;
      }
      ghost var before := Bytes();
      SpliceNothing(before, address);
      var index, offset := ToBlock(address), ToOffset(address);
      if offset != 0 {
        var n := if |data| < blockSize - offset then |data| else blockSize - offset;
        Put(index, offset, data[..n], before, address, []);
        assert [] + data[..n] == data[..n];
        MulStep(index, blockSize);
        WriteAligned(index + 1, data, n, before, address);
      } else {
        WriteAligned(index, data, 0, before, address);
      }
    }

    /** The whole-block part and the tail of zeroing a range. */
    method ZeroAligned(index: nat, done: nat, size: nat, ghost before: seq<byte>, ghost address: nat)
      requires Valid() && |before| == |blocks| * blockSize && address + size <= |before|
      requires done <= size && (done < size ==> index * blockSize == address + done)
      requires Bytes() == Splice(before, address, Zeros(done))
      modifies this
      ensures Valid() && |blocks| == |old(blocks)| && Bytes() == Splice(before, address, Zeros(size))
    {
      hide Flat, Splice, Uniform;
      var i, n := index, done;
      while size - n >= blockSize
        invariant Valid() && |blocks| == |old(blocks)|
        invariant n <= size && (n < size ==> i * blockSize == address + n)
        invariant Bytes() == Splice(before, address, Zeros(n))
      {
        Put(i, 0, Zeros(blockSize), before, address, Zeros(n));
        assert Zeros(n) + Zeros(blockSize) == Zeros(n + blockSize);
        MulStep(i, blockSize);
        i, n := i + 1, n + blockSize;
      }
      assert Zeros(n) + Zeros(size - n) == Zeros(size);
      if n < size {
        Put(i, 0, Zeros(size - n), before, address, Zeros(n));
      }
    }

    /** Zeroes [address, address + size). */
    method Zero(address: nat, size: nat)
      requires Valid() && (size > 0 ==> address + size <= |blocks| * blockSize)
      modifies this
      ensures Valid() && |blocks| == |old(blocks)|
      ensures size == 0 ==> blocks == old(blocks)
      ensures size > 0 ==> Bytes() == Splice(old(Bytes()), address, Zeros(size))
    {
      hide Flat, Splice, Uniform;
      if size == 0 {
        return;
      }
      ghost var before := Bytes();
      SpliceNothing(before, address);
      assert Zeros(0) == [];
      var index, offset := ToBlock(address), ToOffset(address);
      if offset != 0 {
        var n := if size < blockSize - offset then size else blockSize - offset;
        Put(index, offset, Zeros(n), before, address, Zeros(0));
        assert Zeros(0) + Zeros(n) == Zeros(n);
        MulStep(index, blockSize);
        ZeroAligned(index + 1, n, size, before, address);
      } else {
        ZeroAligned(index, 0, size, before, address);
      }
    }

    /** Reads through a handle to one block. */
    method Peek(index: nat, offset: nat, size: nat, ghost address: nat) returns (data: seq<byte>)
      requires Valid() && size > 0 && offset + size <= blockSize
      requires index * blockSize + offset == address && address + size <= |blocks| * blockSize
      ensures data == Bytes()[address..address + size]
    {
      InFile(index, offset, address);
      BlockWindow(blocks, blockSize, index);
      data := blocks[index][offset..offset + size];
    }

    /** Whole blocks and the partial tail of a read. */
    method ReadAligned(index: nat, head: seq<byte>, size: nat, ghost address: nat) returns (data: seq<byte>)
      requires Valid() && address + size <= |blocks| * blockSize && |head| <= size
      requires |head| < size ==> index * blockSize == address + |head|
      requires head == Bytes()[address..address + |head|]
      ensures data == Bytes()[address..address + size]
    {
      hide Flat, Uniform;
      data := head;
      var i := index;
      while size - |data| >= blockSize
        invariant |data| <= size && data == Bytes()[address..address + |data|]
        invariant |data| < size ==> i * blockSize == address + |data|
        decreases size - |data|
      {
        var chunk := Peek(i, 0, blockSize, address + |data|);
        data := data + chunk;
        MulStep(i, blockSize);
        i := i + 1;
      }
      if |data| < size {
        var chunk := Peek(i, 0, size - |data|, address + |data|);
        data := data + chunk;
      }
    }

    /** Reads [address, address + size). */
    method Read(address: nat, size: nat) returns (data: seq<byte>)
      requires Valid() && (size > 0 ==> address + size <= |blocks| * blockSize)
      ensures if size == 0 then data == [] else data == Bytes()[address..address + size]
    {
      hide Flat, Uniform;
      if size == 0 {
        return [];
      }
      var index, offset := ToBlock(address), ToOffset(address);
      if offset != 0 {
        var n := if size < blockSize - offset then size else blockSize - offset;
        var head := Peek(index, offset, n, address);
        MulStep(index, blockSize);
        data := ReadAligned(index + 1, head, size, address);
      } else {
        data := ReadAligned(index, [], size, address);
      }
    }

    /** One memmove between two block buffers, which may be the same buffer. */
    method Move(srcIndex: nat, srcOffset: nat, destIndex: nat, destOffset: nat, size: nat, ghost src: nat, ghost dest: nat)
      requires Valid() && 0 < size && srcOffset + size <= blockSize && destOffset + size <= blockSize
      requires srcIndex * blockSize + srcOffset == src && src + size <= |blocks| * blockSize
      requires destIndex * blockSize + destOffset == dest && dest + size <= |blocks| * blockSize
      modifies this
      ensures Valid() && |blocks| == |old(blocks)|
      ensures Bytes() == Memmove(old(Bytes()), src, dest, size)
    {
      var data := Peek(srcIndex, srcOffset, size, src);
      InFile(destIndex, destOffset, dest);
      Poke(destIndex, destOffset, data);
    }

    /** Zeroes the whole destination block before it is copied into. */
    method Clear(index: nat, ghost dest: nat)
      requires Valid() && index * blockSize == dest && dest + blockSize <= |blocks| * blockSize
      modifies this
      ensures Valid() && |blocks| == |old(blocks)|
      ensures Bytes() == Splice(old(Bytes()), dest, Zeros(blockSize))
    {
      InFile(index, 0, dest);
      assert [] + Zeros(blockSize) == Zeros(blockSize);
      Overwrite(index, []);
    }

    /** Advancing inside a block stays in it, or lands on the start of the next one. */
    lemma Advance(address: nat, n: nat)
      requires blockSize > 0 && ToOffset(address) + n <= blockSize
      ensures ToBlock(address) * blockSize + ToOffset(address) == address
      ensures ToOffset(address + n) == 0 || ToBlock(address + n) == ToBlock(address)
    {
      var i, o := ToBlock(address), ToOffset(address);
      MulStep(i, blockSize);
      if o + n < blockSize {
        DivUnique(address + n, blockSize, i);
      } else {
        DivUnique(address + n, blockSize, i + 1);
      }
    }

    /** A held handle is for the block that contains the address, unless a new block starts there. */
    ghost predicate HandleFor(handle: Option<nat>, address: nat)
      requires blockSize > 0
    {
      ToOffset(address) == 0 || handle.None? || handle.value == ToBlock(address)
    }

    /** Fetches the destination block of an upward copy, zeroing it when all of it will be written. */
    method DestForward(src0: nat, dest0: nat, size0: nat, size: nat, canOverwrite: bool, handle: Option<nat>, ghost before: seq<byte>)
      returns (index: nat)
      requires Valid() && 0 < size <= size0
      requires canOverwrite ==> src0 >= dest0 + blockSize || src0 + size0 <= dest0
      requires Partial(before, Bytes(), src0, dest0, size0, 0, size0 - size)
      requires HandleFor(handle, dest0 + (size0 - size))
      modifies this
      ensures Valid() && |blocks| == |old(blocks)| && index == ToBlock(dest0 + (size0 - size))
      ensures Partial(before, Bytes(), src0, dest0, size0, 0, size0 - size)
    {
      hide Flat, Splice, Memmove, Uniform;
      var dest := dest0 + (size0 - size);
      if handle.None? || ToOffset(dest) == 0 {
        if canOverwrite && ToOffset(dest) == 0 && size >= blockSize {
          Advance(dest, 0);
          ClearUp(before, Bytes(), src0, dest0, size0, size0 - size, blockSize);
          Clear(ToBlock(dest), dest);
        }
        return ToBlock(dest);
      }
      return handle.value;
    }

    method MoveForward(srcIndex: nat, srcOffset: nat, destIndex: nat, destOffset: nat, chunk: nat,
                       ghost src0: nat, ghost dest0: nat, ghost size0: nat, ghost done: nat, ghost before: seq<byte>)
      requires Valid() && 0 < chunk && srcOffset + chunk <= blockSize && destOffset + chunk <= blockSize
      requires src0 > dest0 || src0 + size0 <= dest0
      requires Partial(before, Bytes(), src0, dest0, size0, 0, done) && done + chunk <= size0
      requires srcIndex * blockSize + srcOffset == src0 + done && destIndex * blockSize + destOffset == dest0 + done
      modifies this
      ensures Valid() && |blocks| == |old(blocks)|
      ensures Partial(before, Bytes(), src0, dest0, size0, 0, done + chunk)
    {
      hide Flat, Splice, Memmove, Uniform;
      MoveUp(before, Bytes(), src0, dest0, size0, done, chunk);
      Move(srcIndex, srcOffset, destIndex, destOffset, chunk, src0 + done, dest0 + done);
    }

    /** One turn of the upward copy: fetch handles as needed, then move one chunk. */
    method StepForward(src0: nat, dest0: nat, size0: nat, size: nat, canOverwrite: bool,
                       srcHandle: Option<nat>, destHandle: Option<nat>, ghost before: seq<byte>)
      returns (chunk: nat, srcIndex: nat, destIndex: nat)
      requires Valid() && 0 < size <= size0
      requires src0 > dest0 || src0 + size0 <= dest0
      requires canOverwrite ==> src0 >= dest0 + blockSize || src0 + size0 <= dest0
      requires Partial(before, Bytes(), src0, dest0, size0, 0, size0 - size)
      requires HandleFor(srcHandle, src0 + (size0 - size)) && HandleFor(destHandle, dest0 + (size0 - size))
      modifies this
      ensures Valid() && |blocks| == |old(blocks)| && 0 < chunk <= size
      ensures Partial(before, Bytes(), src0, dest0, size0, 0, size0 - size + chunk)
      ensures HandleFor(Some(srcIndex), src0 + (size0 - size) + chunk)
      ensures HandleFor(Some(destIndex), dest0 + (size0 - size) + chunk)
    {
      hide Flat, Splice, Memmove, Uniform, Partial;
      var src, dest := src0 + (size0 - size), dest0 + (size0 - size);
      destIndex := DestForward(src0, dest0, size0, size, canOverwrite, destHandle, before);
      srcIndex := if srcHandle.None? || ToOffset(src) == 0 then ToBlock(src) else srcHandle.value;
      chunk := Least(Least(blockSize - ToOffset(src), blockSize - ToOffset(dest)), size);
      Advance(src, chunk);
      Advance(dest, chunk);
      MoveForward(srcIndex, ToOffset(src), destIndex, ToOffset(dest), chunk, src0, dest0, size0, size0 - size, before);
    }

    method CopyForward(src: nat, dest: nat, size: nat)
      requires Valid() && 0 < size
      requires src + size <= |blocks| * blockSize && dest + size <= |blocks| * blockSize
      requires src > dest || src + size <= dest
      modifies this
      ensures Valid() && |blocks| == |old(blocks)|
      ensures Bytes() == Memmove(old(Bytes()), src, dest, size)
    {
      hide Flat, Splice, Memmove, Uniform, Partial;
      ghost var before := Bytes();
      PartialStart(before, src, dest, size);
      var canOverwrite := (if src <= dest then dest - src else src - dest) >= blockSize;
      var left := size;
      var srcHandle: Option<nat>, destHandle: Option<nat> := None, None;
      while left > 0
        invariant Valid() && |blocks| == |old(blocks)| && 0 <= left <= size
        invariant Partial(before, Bytes(), src, dest, size, 0, size - left)
        invariant HandleFor(srcHandle, src + (size - left)) && HandleFor(destHandle, dest + (size - left))
      {
        var chunk, i, j := StepForward(src, dest, size, left, canOverwrite, srcHandle, destHandle, before);
        srcHandle, destHandle := Some(i), Some(j);
        left := left - chunk;
      }
      PartialDone(before, Bytes(), src, dest, size);
    }

    lemma AddressIs(address: nat, i: nat)
      requires blockSize > 0 && i * blockSize <= address < i * blockSize + blockSize
      ensures ToBlock(address) == i && ToOffset(address) == address - i * blockSize
    {
      DivUnique(address, blockSize, i);
    }

    lemma AddressParts(address: nat)
      requires blockSize > 0
      ensures ToBlock(address) * blockSize + ToOffset(address) == address && ToOffset(address) < blockSize
    {}

    /** Stepping back inside a block. An address at a block start belongs to the block before it. */
    lemma Retreat(address: nat, n: nat)
      requires blockSize > 0 && 0 < n <= address
      requires n <= if ToOffset(address) != 0 then ToOffset(address) else blockSize
      ensures ToBlock(address - n) == ToBlock(address - 1)
      ensures ToBlock(address - n) * blockSize + ToOffset(address - n) == address - n
      ensures ToOffset(address - n) + n <= blockSize
    {
      hide Engine.ToBlock, Engine.ToOffset;
      AddressParts(address);
      var i := ToBlock(address);
      if ToOffset(address) == 0 {
        assert i > 0;
        MulStep(i - 1, blockSize);
        i := i - 1;
      }
      AddressIs(address - n, i);
      AddressIs(address - 1, i);
    }

    lemma StillBelow(address: nat, index: nat)
      requires blockSize > 0 && ToBlock(address) == index
      ensures HandleBelow(Some(index), address)
    {
      if ToOffset(address) != 0 {
        Retreat(address, 1);
        DivUnique(address - 1, blockSize, index);
      }
    }

    /** Going down, a held handle is for the block that contains the byte below the address. */
    ghost predicate HandleBelow(handle: Option<nat>, address: nat)
      requires blockSize > 0
    {
      ToOffset(address) == 0 || handle.None? || handle.value == ToBlock(address - 1)
    }

    method DestBackward(src0: nat, dest0: nat, size0: nat, size: nat, canOverwrite: bool, handle: Option<nat>, ghost before: seq<byte>)
      returns (index: nat)
      requires Valid() && 0 < size <= size0 && src0 < dest0
      requires canOverwrite ==> src0 + blockSize <= dest0
      requires Partial(before, Bytes(), src0, dest0, size0, size, size0)
      requires HandleBelow(handle, dest0 + size)
      modifies this
      ensures Valid() && |blocks| == |old(blocks)| && index == ToBlock(dest0 + size - 1)
      ensures Partial(before, Bytes(), src0, dest0, size0, size, size0)
    {
      hide Flat, Splice, Memmove, Uniform;
      var dest := dest0 + size;
      if handle.None? || ToOffset(dest) == 0 {
        if canOverwrite && ToOffset(dest) == 0 && size >= blockSize {
          Retreat(dest, blockSize);
          ClearDown(before, Bytes(), src0, dest0, size0, size, blockSize);
          Clear(ToBlock(dest - 1), dest - blockSize);
        }
        return ToBlock(dest - 1);
      }
      return handle.value;
    }

    method MoveBackward(srcIndex: nat, srcOffset: nat, destIndex: nat, destOffset: nat, chunk: nat,
                        ghost src0: nat, ghost dest0: nat, ghost size0: nat, ghost left: nat, ghost before: seq<byte>)
      requires Valid() && 0 < chunk <= left && srcOffset + chunk <= blockSize && destOffset + chunk <= blockSize
      requires src0 < dest0 && Partial(before, Bytes(), src0, dest0, size0, left, size0)
      requires srcIndex * blockSize + srcOffset == src0 + left - chunk && destIndex * blockSize + destOffset == dest0 + left - chunk
      modifies this
      ensures Valid() && |blocks| == |old(blocks)|
      ensures Partial(before, Bytes(), src0, dest0, size0, left - chunk, size0)
    {
      hide Flat, Splice, Memmove, Uniform;
      MoveDown(before, Bytes(), src0, dest0, size0, left, chunk);
      Move(srcIndex, srcOffset, destIndex, destOffset, chunk, src0 + left - chunk, dest0 + left - chunk);
    }

    /** One turn of the downward copy. */
    method StepBackward(src0: nat, dest0: nat, size0: nat, size: nat, canOverwrite: bool,
                        srcHandle: Option<nat>, destHandle: Option<nat>, ghost before: seq<byte>)
      returns (chunk: nat, srcIndex: nat, destIndex: nat)
      requires Valid() && 0 < size <= size0 && src0 < dest0
      requires canOverwrite ==> src0 + blockSize <= dest0
      requires Partial(before, Bytes(), src0, dest0, size0, size, size0)
      requires HandleBelow(srcHandle, src0 + size) && HandleBelow(destHandle, dest0 + size)
      modifies this
      ensures Valid() && |blocks| == |old(blocks)| && 0 < chunk <= size
      ensures Partial(before, Bytes(), src0, dest0, size0, size - chunk, size0)
      ensures HandleBelow(Some(srcIndex), src0 + size - chunk) && HandleBelow(Some(destIndex), dest0 + size - chunk)
    {
      hide Flat, Splice, Memmove, Uniform, Partial;
      var src, dest := src0 + size, dest0 + size;
      destIndex := DestBackward(src0, dest0, size0, size, canOverwrite, destHandle, before);
      srcIndex := if srcHandle.None? || ToOffset(src) == 0 then ToBlock(src - 1) else srcHandle.value;
      chunk := Least(Least(if ToOffset(src) != 0 then ToOffset(src) else blockSize,
                       if ToOffset(dest) != 0 then ToOffset(dest) else blockSize), size);
      Retreat(src, chunk);
      Retreat(dest, chunk);
      MoveBackward(srcIndex, ToOffset(src - chunk), destIndex, ToOffset(dest - chunk), chunk, src0, dest0, size0, size, before);
      StillBelow(src - chunk, srcIndex);
      StillBelow(dest - chunk, destIndex);
    }

    method CopyBackward(src: nat, dest: nat, size: nat)
      requires Valid() && 0 < size && src < dest
      requires src + size <= |blocks| * blockSize && dest + size <= |blocks| * blockSize
      modifies this
      ensures Valid() && |blocks| == |old(blocks)|
      ensures Bytes() == Memmove(old(Bytes()), src, dest, size)
    {
      hide Flat, Splice, Memmove, Uniform, Partial;
      ghost var before := Bytes();
      PartialStart(before, src, dest, size);
      var canOverwrite := dest - src >= blockSize;
      var left := size;
      var srcHandle: Option<nat>, destHandle: Option<nat> := None, None;
      while left > 0
        invariant Valid() && |blocks| == |old(blocks)| && 0 <= left <= size
        invariant Partial(before, Bytes(), src, dest, size, left, size)
        invariant HandleBelow(srcHandle, src + left) && HandleBelow(destHandle, dest + left)
      {
        var chunk, i, j := StepBackward(src, dest, size, left, canOverwrite, srcHandle, destHandle, before);
        srcHandle, destHandle := Some(i), Some(j);
        left := left - chunk;
      }
      PartialDone(before, Bytes(), src, dest, size);
    }

    /** Copies a byte range onto another one, which may overlap it, as memmove does. */
    method Copy(src: nat, dest: nat, size: nat)
      requires Valid()
      requires size > 0 ==> src + size <= |blocks| * blockSize && dest + size <= |blocks| * blockSize
      modifies this
      ensures Valid() && |blocks| == |old(blocks)|
      ensures size == 0 ==> blocks == old(blocks)
      ensures size > 0 ==> Bytes() == Memmove(old(Bytes()), src, dest, size)
    {
      hide Flat, Splice, Memmove, Uniform;
      if dest == src || size == 0 {
        if size > 0 { MemmoveSelf(Bytes(), src, size); }
        return;
      }
      if src > dest || src + size <= dest {
        CopyForward(src, dest, size);
      } else {
        CopyBackward(src, dest, size);
      }
    }

    /** Copies `n` whole blocks onto a range of blocks that may overlap them. */
    method CopyBlocks(src: nat, dest: nat, n: nat)
      requires Valid() && src + n <= |blocks| && dest + n <= |blocks|
      modifies this
      ensures Valid() && |blocks| == |old(blocks)|
      ensures blocks[dest..dest + n] == old(blocks)[src..src + n]
      ensures forall b :: 0 <= b < |blocks| && !(dest <= b < dest + n) ==> blocks[b] == old(blocks)[b]
    {
      hide Flat, Memmove, Uniform;
      MulRange(src, n, |blocks|, blockSize);
      MulRange(dest, n, |blocks|, blockSize);
      Copy(src * blockSize, dest * blockSize, n * blockSize);
      if n > 0 {
        MulMono(1, n, blockSize);
        MemmoveOfAllBlocks(old(blocks), blocks, blockSize, src, dest, n);
      }
    }
  }

  lemma MulRange(start: nat, n: nat, total: nat, bs: nat)
    requires start + n <= total
    ensures start * bs + n * bs <= total * bs
  {}

  lemma MemmoveWindow(f: seq<byte>, src: nat, dest: nat, size: nat, at: nat, len: nat)
    requires src + size <= |f| && dest + size <= |f| && at + len <= |f|
    ensures dest <= at && at + len <= dest + size ==>
              Memmove(f, src, dest, size)[at..at + len] == f[at - dest + src..at - dest + src + len]
    ensures at + len <= dest || dest + size <= at ==> Memmove(f, src, dest, size)[at..at + len] == f[at..at + len]
  {
    var g := Memmove(f, src, dest, size);
    assert forall i :: dest <= i < dest + size ==> g[i] == f[i - dest + src];
    assert forall i :: 0 <= i < dest || dest + size <= i < |f| ==> g[i] == f[i];
  }

  /** Memmove of block-aligned ranges, seen block by block. */
  lemma MemmoveOfBlocks(blocks: seq<Block>, blocks': seq<Block>, bs: nat, src: nat, dest: nat, n: nat, b: nat)
    requires Uniform(blocks, bs) && Uniform(blocks', bs) && |blocks'| == |blocks| && b < |blocks|
    requires src + n <= |blocks| && dest + n <= |blocks|
    requires src * bs + n * bs <= |blocks| * bs && dest * bs + n * bs <= |blocks| * bs
    requires Flat(blocks', bs) == Memmove(Flat(blocks, bs), src * bs, dest * bs, n * bs)
    ensures blocks'[b] == if dest <= b < dest + n then blocks[b - dest + src] else blocks[b]
  {
    hide Flat, Memmove, Uniform;
    BlockWindow(blocks, bs, b);
    BlockWindow(blocks', bs, b);
    MemmoveWindow(Flat(blocks, bs), src * bs, dest * bs, n * bs, b * bs, bs);
    if dest <= b < dest + n {
      BlockWindow(blocks, bs, b - dest + src);
      Shift(b, dest, src, bs);
      WindowInside(b, dest, n, bs);
    } else {
      WindowOutside(b, dest, n, bs);
    }
  }

  lemma MemmoveOfAllBlocks(blocks: seq<Block>, blocks': seq<Block>, bs: nat, src: nat, dest: nat, n: nat)
    requires Uniform(blocks, bs) && Uniform(blocks', bs) && |blocks'| == |blocks|
    requires src + n <= |blocks| && dest + n <= |blocks|
    requires src * bs + n * bs <= |blocks| * bs && dest * bs + n * bs <= |blocks| * bs
    requires Flat(blocks', bs) == Memmove(Flat(blocks, bs), src * bs, dest * bs, n * bs)
    ensures blocks'[dest..dest + n] == blocks[src..src + n]
    ensures forall b :: 0 <= b < |blocks| && !(dest <= b < dest + n) ==> blocks'[b] == blocks[b]
  {
    hide Flat, Memmove, Uniform;
    forall b | 0 <= b < |blocks| && !(dest <= b < dest + n) ensures blocks'[b] == blocks[b] {
      MemmoveOfBlocks(blocks, blocks', bs, src, dest, n, b);
    }
    forall b | dest <= b < dest + n ensures blocks'[b] == blocks[b - dest + src] {
      MemmoveOfBlocks(blocks, blocks', bs, src, dest, n, b);
    }
  }

  lemma Shift(b: nat, dest: nat, src: nat, bs: nat)
    requires dest <= b
    ensures (b - dest + src) * bs == b * bs - dest * bs + src * bs && (b - dest) * bs == b * bs - dest * bs
  {}
}
