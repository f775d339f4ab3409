/**
The index of a journal: where the last versions of the blocks are in the log.
*/
module JournalIndex {
  import opened Blocks
  import opened JournalLog
  import opened Wrappers

  /** The positions lead to the blocks. */
  ghost predicate Located(positions: map<nat, nat>, blocks: map<nat, Block>, s: seq<byte>, bs: nat) {
    && positions.Keys == blocks.Keys
    && forall i :: i in positions ==> positions[i] + bs <= |s| && s[positions[i]..positions[i] + bs] == blocks[i]
  }

  /** The positions of the blocks of the running transaction, which starts at `start`; each block is written once. */
  ghost predicate Placed(uncommitted: map<nat, nat>, writes: seq<Record>, bs: nat, start: nat)
    requires AreWrites(writes, bs)
  {
    && (forall k :: 0 <= k < |writes| ==> writes[k].index in uncommitted && uncommitted[writes[k].index] == start + DataAt(writes, bs, k))
    && (forall i :: i in uncommitted ==> exists k :: 0 <= k < |writes| && writes[k].index == i)
  }

  /** `at` is where the last write of block `i` is. */
  ghost predicate LastAt(at: nat, writes: seq<Record>, bs: nat, start: nat, i: nat)
    requires AreWrites(writes, bs)
  {
    exists k :: 0 <= k < |writes| && writes[k].index == i && at == start + DataAt(writes, bs, k) && forall j :: k < j < |writes| ==> writes[j].index != i
  }

  /** The positions of the last writes of all blocks. */
  ghost predicate Tracks(uncommitted: map<nat, nat>, writes: seq<Record>, bs: nat, start: nat)
    requires AreWrites(writes, bs)
  {
    && (forall k :: 0 <= k < |writes| ==> writes[k].index in uncommitted)
    && (forall i :: i in uncommitted ==> LastAt(uncommitted[i], writes, bs, start, i))
  }

  lemma WrittenMore(blocks: map<nat, Block>, writes: seq<Record>, w: Record)
    requires w.Write?
    ensures Written(blocks, writes + [w]) == Written(blocks, writes)[w.index := w.data]
  {
    assert (writes + [w])[..|writes|] == writes;
  }

  lemma DataAtMore(writes: seq<Record>, bs: nat, w: Record, k: nat)
    requires AreWrites(writes, bs) && w.Write? && Fits(w, bs) && k < |writes|
    ensures AreWrites(writes + [w], bs) && DataAt(writes + [w], bs, k) == DataAt(writes, bs, k)
  {
    assert (writes + [w])[..k] == writes[..k];
  }

  lemma PlacedMore(uncommitted: map<nat, nat>, writes: seq<Record>, bs: nat, start: nat, w: Record)
    requires AreWrites(writes, bs) && Placed(uncommitted, writes, bs, start) && w.Write? && Fits(w, bs) && w.index !in uncommitted
    ensures AreWrites(writes + [w], bs)
    ensures Placed(uncommitted[w.index := start + |AllBytes(writes, bs)| + 9], writes + [w], bs, start)
  {
    hide AllBytes, Fits;
    var writes', u := writes + [w], uncommitted[w.index := start + |AllBytes(writes, bs)| + 9];
    AllBytesLast(writes, w, bs);
    assert writes'[..|writes|] == writes;
    forall k | 0 <= k < |writes'| ensures writes'[k].index in u && u[writes'[k].index] == start + DataAt(writes', bs, k) {
      if k < |writes| {
        DataAtMore(writes, bs, w, k);
      }
    }
    forall i | i in u ensures exists k :: 0 <= k < |writes'| && writes'[k].index == i {
      if i == w.index {
        assert writes'[|writes|].index == i;
      } else {
        var k :| 0 <= k < |writes| && writes[k].index == i;
        assert writes'[k].index == i;
      }
    }
  }

  lemma {:induction false} DataAtIncreases(writes: seq<Record>, bs: nat, j: nat, k: nat)
    requires AreWrites(writes, bs) && j < k < |writes|
    ensures DataAt(writes, bs, j) < DataAt(writes, bs, k)
  {
    hide AllBytes;
    WritesSlice(writes, 0, k, bs);
    var a := writes[..k];
    assert a[..j] == writes[..j] && writes[0..k] == a;
    AllBytesAround(a, bs, j);
  }

  /** Where the block of a write is in the log. */
  lemma {:induction false} DataInLog(c: seq<byte>, writes: seq<Record>, bs: nat, k: nat, rest: seq<byte>)
    requires AreWrites(writes, bs) && k < |writes|
    ensures var s, at := c + (Bytes(Begin, bs) + AllBytes(writes, bs)) + rest, |c| + 1 + DataAt(writes, bs, k);
            at + bs <= |s| && s[at..at + bs] == writes[k].data
  {
    hide AllBytes, Bytes, DataAt;
    DataIsThere(writes, bs, k);
    SliceMiddle(c + Bytes(Begin, bs), AllBytes(writes, bs), rest, DataAt(writes, bs, k), bs);
    assert c + Bytes(Begin, bs) + AllBytes(writes, bs) + rest == c + (Bytes(Begin, bs) + AllBytes(writes, bs)) + rest;
  }

  /** Each block is written once. */
  lemma {:induction false} OnceWritten(uncommitted: map<nat, nat>, writes: seq<Record>, bs: nat, start: nat, j: nat, k: nat)
    requires AreWrites(writes, bs) && Placed(uncommitted, writes, bs, start) && j < |writes| && k < |writes| && writes[j].index == writes[k].index
    ensures j == k
  {
    hide AllBytes;
    if j < k {
      DataAtIncreases(writes, bs, j, k);
    } else if k < j {
      DataAtIncreases(writes, bs, k, j);
    }
  }

  /** The blocks after the writes: those that are written, and the others. */
  lemma {:induction false} WrittenKeys(blocks: map<nat, Block>, writes: seq<Record>, bs: nat, i: nat)
    requires AreWrites(writes, bs)
    ensures i in Written(blocks, writes) <==> i in blocks || exists k :: 0 <= k < |writes| && writes[k].index == i
    ensures (forall k :: 0 <= k < |writes| ==> writes[k].index != i) && i in blocks ==> Written(blocks, writes)[i] == blocks[i]
  {
    if writes != [] {
      var n := |writes| - 1;
      WritesSlice(writes, 0, n, bs);
      assert writes[0..n] == writes[..n];
      WrittenKeys(blocks, writes[..n], bs, i);
      if k :| 0 <= k < |writes| && writes[k].index == i {
        assert k < n ==> writes[..n][k].index == i;
      }
    }
  }

  lemma {:induction false} WrittenValue(blocks: map<nat, Block>, writes: seq<Record>, bs: nat, k: nat)
    requires AreWrites(writes, bs) && k < |writes| && forall j :: k < j < |writes| ==> writes[j].index != writes[k].index
    ensures writes[k].index in Written(blocks, writes) && Written(blocks, writes)[writes[k].index] == writes[k].data
  {
    var n := |writes| - 1;
    if k < n {
      WritesSlice(writes, 0, n, bs);
      assert writes[0..n] == writes[..n];
      WrittenValue(blocks, writes[..n], bs, k);
    }
  }

  /** The log after a block was overwritten in its place. */
  lemma {:induction false} RewrittenLog(c: seq<byte>, writes: seq<Record>, bs: nat, k: nat, data: Block)
    requires AreWrites(writes, bs) && k < |writes| && |data| <= bs
    ensures var w := Write(writes[k].index, data + writes[k].data[|data|..]);
            var s, at := c + (Bytes(Begin, bs) + AllBytes(writes, bs)), |c| + 1 + DataAt(writes, bs, k);
            && AreWrites(writes[k := w], bs) && at + bs <= |s|
            && Splice(s, at, data) == c + (Bytes(Begin, bs) + AllBytes(writes[k := w], bs))
  {
    hide AllBytes, Bytes, DataAt, Splice;
    DataReplaced(writes, bs, k, data);
    SpliceMiddle(c + Bytes(Begin, bs), AllBytes(writes, bs), [], DataAt(writes, bs, k), data);
    var s := c + (Bytes(Begin, bs) + AllBytes(writes, bs));
    assert s == c + Bytes(Begin, bs) + AllBytes(writes, bs) + [];
    var w := Write(writes[k].index, data + writes[k].data[|data|..]);
    assert c + Bytes(Begin, bs) + AllBytes(writes[k := w], bs) + [] == c + (Bytes(Begin, bs) + AllBytes(writes[k := w], bs));
  }

  lemma {:induction false} RewrittenWhole(c: seq<byte>, writes: seq<Record>, bs: nat, k: nat, data: Block)
    requires AreWrites(writes, bs) && k < |writes| && |data| == bs
    ensures var w := Write(writes[k].index, data);
            var s, at := c + (Bytes(Begin, bs) + AllBytes(writes, bs)), |c| + 1 + DataAt(writes, bs, k);
            && AreWrites(writes[k := w], bs) && at + bs <= |s|
            && Splice(s, at, data) == c + (Bytes(Begin, bs) + AllBytes(writes[k := w], bs))
  {
    hide AllBytes, Bytes, DataAt, Splice;
    RewrittenLog(c, writes, bs, k, data);
    assert data + writes[k].data[|data|..] == data;
  }

  lemma IndexOf(uncommitted: map<nat, nat>, writes: seq<Record>, bs: nat, start: nat, index: nat) returns (k: nat)
    requires AreWrites(writes, bs) && Placed(uncommitted, writes, bs, start) && index in uncommitted
    ensures k < |writes| && writes[k].index == index && uncommitted[index] == start + DataAt(writes, bs, k)
  {
    hide DataAt;
    k :| 0 <= k < |writes| && writes[k].index == index;
  }

  lemma {:induction false} RewrittenIndex(blocks: map<nat, Block>, writes: seq<Record>, bs: nat, uncommitted: map<nat, nat>, start: nat, k: nat, data: Block)
    requires AreWrites(writes, bs) && Placed(uncommitted, writes, bs, start) && k < |writes| && |data| == bs
    ensures var w := Write(writes[k].index, data);
            && AreWrites(writes[k := w], bs) && Placed(uncommitted, writes[k := w], bs, start)
            && Written(blocks, writes[k := w]) == Written(blocks, writes)[w.index := data]
  {
    hide Written, AllBytes;
    var w := Write(writes[k].index, data);
    var writes' := writes[k := w];
    assert AreWrites(writes', bs);
    forall j | 0 <= j < |writes| ensures DataAt(writes', bs, j) == DataAt(writes, bs, j) && writes'[j].index == writes[j].index {
      SameLength(writes, bs, k, w, j);
    }
    forall i | i in uncommitted ensures exists j :: 0 <= j < |writes'| && writes'[j].index == i {
      var j :| 0 <= j < |writes| && writes[j].index == i;
      assert writes'[j].index == i;
    }
    RewrittenBlocks(blocks, writes, writes', bs, uncommitted, start, k, w);
  }

  lemma {:induction false} RewrittenBlocks(blocks: map<nat, Block>, writes: seq<Record>, writes': seq<Record>, bs: nat, uncommitted: map<nat, nat>, start: nat, k: nat, w: Record)
    requires AreWrites(writes, bs) && AreWrites(writes', bs) && Placed(uncommitted, writes, bs, start) && Placed(uncommitted, writes', bs, start)
    requires k < |writes| && w.Write? && w.index == writes[k].index && writes' == writes[k := w]
    ensures Written(blocks, writes') == Written(blocks, writes)[w.index := w.data]
  {
    hide Written, AllBytes, DataAt, Tracks;
    PlacedTracks(uncommitted, writes, bs, start);
    PlacedTracks(uncommitted, writes', bs, start);
    var a, b := Written(blocks, writes'), Written(blocks, writes)[w.index := w.data];
    assert writes'[k].index == w.index;
    forall i: nat ensures (i in a <==> i in b) && (i in a ==> a[i] == b[i]) {
      WrittenIs(blocks, writes, bs, uncommitted, start, i);
      WrittenIs(blocks, writes', bs, uncommitted, start, i);
      if i in uncommitted {
        var p :| 0 <= p < |writes| && writes[p].index == i;
        PlacedValue(blocks, writes, bs, uncommitted, start, p);
        assert writes'[p].index == i;
        PlacedValue(blocks, writes', bs, uncommitted, start, p);
        if i == w.index {
          OnceWritten(uncommitted, writes, bs, start, p, k);
        }
      }
    }
  }

  lemma {:induction false} PlacedValue(blocks: map<nat, Block>, writes: seq<Record>, bs: nat, uncommitted: map<nat, nat>, start: nat, k: nat)
    requires AreWrites(writes, bs) && Placed(uncommitted, writes, bs, start) && k < |writes|
    ensures writes[k].index in Written(blocks, writes) && Written(blocks, writes)[writes[k].index] == writes[k].data
  {
    hide Written, AllBytes, DataAt;
    forall j | k < j < |writes| ensures writes[j].index != writes[k].index {
      if writes[j].index == writes[k].index {
        OnceWritten(uncommitted, writes, bs, start, j, k);
      }
    }
    WrittenValue(blocks, writes, bs, k);
  }

  lemma {:induction false} SameLength(writes: seq<Record>, bs: nat, k: nat, w: Record, j: nat)
    requires AreWrites(writes, bs) && k < |writes| && w.Write? && Fits(w, bs) && j < |writes|
    ensures AreWrites(writes[k := w], bs) && DataAt(writes[k := w], bs, j) == DataAt(writes, bs, j)
  {
    WritesSlice(writes, 0, j, bs);
    WritesSlice(writes[k := w], 0, j, bs);
    assert writes[0..j] == writes[..j] && writes[k := w][0..j] == writes[k := w][..j];
    SizeOfAll(writes[..j], writes[k := w][..j], bs);
  }

  lemma {:induction false} SizeOfAll(a: seq<Record>, b: seq<Record>, bs: nat)
    requires AreWrites(a, bs) && AreWrites(b, bs) && |a| == |b|
    ensures |AllBytes(a, bs)| == |AllBytes(b, bs)|
  {
    hide Bytes;
    if a != [] {
      var n := |a| - 1;
      WritesSlice(a, 0, n, bs);
      WritesSlice(b, 0, n, bs);
      assert a[0..n] == a[..n] && b[0..n] == b[..n];
      SizeOfAll(a[..n], b[..n], bs);
    }
  }

  lemma {:induction false} PlacedTracks(uncommitted: map<nat, nat>, writes: seq<Record>, bs: nat, start: nat)
    requires AreWrites(writes, bs) && Placed(uncommitted, writes, bs, start)
    ensures Tracks(uncommitted, writes, bs, start)
  {
    hide DataAt;
    forall i | i in uncommitted ensures LastAt(uncommitted[i], writes, bs, start, i) {
      var k :| 0 <= k < |writes| && writes[k].index == i;
      forall j | k < j < |writes| ensures writes[j].index != i {
        if writes[j].index == i {
          OnceWritten(uncommitted, writes, bs, start, j, k);
        }
      }
    }
  }

  /** What a block is after the writes of a transaction. */
  lemma {:induction false} WrittenIs(blocks: map<nat, Block>, writes: seq<Record>, bs: nat, uncommitted: map<nat, nat>, start: nat, i: nat)
    requires AreWrites(writes, bs) && Tracks(uncommitted, writes, bs, start)
    ensures i in Written(blocks, writes) <==> i in blocks || i in uncommitted
    ensures i in blocks && i !in uncommitted ==> Written(blocks, writes)[i] == blocks[i]
    ensures i in uncommitted ==>
              exists k :: 0 <= k < |writes| && uncommitted[i] == start + DataAt(writes, bs, k) && Written(blocks, writes)[i] == writes[k].data
  {
    hide Written, DataAt;
    WrittenKeys(blocks, writes, bs, i);
    if i in uncommitted {
      var k :| 0 <= k < |writes| && writes[k].index == i && uncommitted[i] == start + DataAt(writes, bs, k) && forall j :: k < j < |writes| ==> writes[j].index != i;
      WrittenValue(blocks, writes, bs, k);
    }
  }

  lemma AfterCommit(history: seq<Transaction>, t: Transaction)
    requires t.last.Commit?
    ensures After(history + [t]) == Image(Below(Written(After(history).blocks, t.writes), t.last.size), Some(t.last.size))
  {
    assert (history + [t])[..|history|] == history;
  }

  lemma AfterAbort(history: seq<Transaction>, t: Transaction)
    requires t.last.Abort?
    ensures After(history + [t]) == After(history)
  {
    assert (history + [t])[..|history|] == history;
  }

  lemma EndsIt(t: Transaction, bs: nat)
    requires IsTransaction(t, bs)
    ensures t.last.Commit? || t.last.Abort?
  {}

  lemma LocatedLonger(positions: map<nat, nat>, blocks: map<nat, Block>, s: seq<byte>, s': seq<byte>, bs: nat)
    requires Located(positions, blocks, s, bs) && s <= s'
    ensures Located(positions, blocks, s', bs)
  {
    forall i | i in positions ensures positions[i] + bs <= |s'| && s'[positions[i]..positions[i] + bs] == blocks[i] {
      assert s'[positions[i]..positions[i] + bs] == s[positions[i]..positions[i] + bs];
    }
  }

  /** After a commit the positions of its blocks take precedence. */
  function Merged(positions: map<nat, nat>, uncommitted: map<nat, nat>, size: nat): map<nat, nat> {
    map i | i in positions.Keys + uncommitted.Keys && i < size :: if i in uncommitted then uncommitted[i] else positions[i]
  }

  /** The position of one block after a commit; `all` is the log with the transaction at its end. */
  lemma {:induction false} LocatedOne(positions: map<nat, nat>, blocks: map<nat, Block>, bs: nat, writes: seq<Record>, uncommitted: map<nat, nat>,
                                      c: seq<byte>, rest: seq<byte>, i: nat)
    requires AreWrites(writes, bs) && Located(positions, blocks, c, bs) && Tracks(uncommitted, writes, bs, |c| + 1)
    ensures i in Written(blocks, writes) <==> i in positions || i in uncommitted
    ensures var all := c + (Bytes(Begin, bs) + AllBytes(writes, bs)) + rest;
            i in positions || i in uncommitted ==>
              && i in Written(blocks, writes)
              && var at := if i in uncommitted then uncommitted[i] else positions[i];
                 at + bs <= |all| && all[at..at + bs] == Written(blocks, writes)[i]
  {
    hide AllBytes, Bytes, Written, DataAt, Tracks;
    WrittenIs(blocks, writes, bs, uncommitted, |c| + 1, i);
    var all := c + (Bytes(Begin, bs) + AllBytes(writes, bs)) + rest;
    if i in uncommitted {
      var k :| 0 <= k < |writes| && uncommitted[i] == |c| + 1 + DataAt(writes, bs, k) && Written(blocks, writes)[i] == writes[k].data;
      DataInLog(c, writes, bs, k, rest);
    } else if i in positions {
      assert all[positions[i]..positions[i] + bs] == c[positions[i]..positions[i] + bs];
    }
  }

  lemma {:induction false} LocatedMore(positions: map<nat, nat>, blocks: map<nat, Block>, bs: nat, history: seq<Transaction>, t: Transaction,
                                       header: seq<byte>, uncommitted: map<nat, nat>)
    requires AreTransactions(history, bs) && IsTransaction(t, bs) && t.last.Commit?
    requires var c := header + LogBytes(history, bs);
             Located(positions, blocks, c, bs) && Tracks(uncommitted, t.writes, bs, |c| + 1)
    ensures AreTransactions(history + [t], bs)
    ensures Located(Merged(positions, uncommitted, t.last.size), Below(Written(blocks, t.writes), t.last.size), header + LogBytes(history + [t], bs), bs)
  {
    hide LogBytes, AllBytes, Bytes, Written, Tracks, IsTransaction;
    var c, all := header + LogBytes(history, bs), header + LogBytes(history + [t], bs);
    TransactionParts(history, t, bs, header);
    var merged, blocks' := Merged(positions, uncommitted, t.last.size), Below(Written(blocks, t.writes), t.last.size);
    forall i: nat ensures i in merged <==> i in blocks' {
      LocatedOne(positions, blocks, bs, t.writes, uncommitted, c, Bytes(t.last, bs), i);
    }
    assert merged.Keys == blocks'.Keys;
    forall i | i in merged ensures merged[i] + bs <= |all| && all[merged[i]..merged[i] + bs] == blocks'[i] {
      LocatedOne(positions, blocks, bs, t.writes, uncommitted, c, Bytes(t.last, bs), i);
    }
  }

  lemma TransactionParts(history: seq<Transaction>, t: Transaction, bs: nat, header: seq<byte>)
    requires AreTransactions(history, bs) && IsTransaction(t, bs)
    ensures AreTransactions(history + [t], bs) && AreWrites(t.writes, bs) && Fits(t.last, bs)
    ensures header + LogBytes(history + [t], bs) == header + LogBytes(history, bs) + (Bytes(Begin, bs) + AllBytes(t.writes, bs)) + Bytes(t.last, bs)
  {
    hide LogBytes, AllBytes, Bytes;
    LogBytesLast(history, t, bs);
    var a, b, d := Bytes(Begin, bs), AllBytes(t.writes, bs), Bytes(t.last, bs);
    assert header + (LogBytes(history, bs) + (a + b + d)) == header + LogBytes(history, bs) + (a + b) + d;
  }
}
