/**
The journal: changes of the running transaction go to a log through a buffer, and whatever a crash leaves of
the log file restores the state of a commit.
*/
module Journals {
  import opened Blocks
  import opened BigEndian
  import opened JournalFiles
  import opened JournalIndex
  import opened JournalLog
  import opened JournalScan
  import opened Wrappers

  // ---- Logs that survive a crash.

  /** A crash image that restores one of the commits from `durable` on. */
  ghost predicate Survives(s: seq<byte>, header: seq<byte>, bs: nat, history: seq<Transaction>, durable: nat) {
    header <= s && exists i :: durable <= i <= |history| && Recovers(s[|header|..], bs, history[..i])
  }

  ghost predicate AllSurvive(images: iset<seq<byte>>, header: seq<byte>, bs: nat, history: seq<Transaction>, durable: nat) {
    forall s :: s in images ==> Survives(s, header, bs, history, durable)
  }

  /** Between two states of the log, as far as it is in the file. */
  ghost predicate Between(s: seq<byte>, low: seq<byte>, high: seq<byte>) {
    low <= s <= high
  }

  lemma BetweenWider(s: seq<byte>, low: seq<byte>, high: seq<byte>, low': seq<byte>, high': seq<byte>)
    requires low' <= low && high <= high'
    ensures Between(s, low, high) ==> Between(s, low', high')
  {}

  lemma UnfinishedPrefix(s: seq<byte>, tail: seq<byte>, bs: nat)
    requires Unfinished(tail, bs) && s <= tail
    ensures Unfinished(s, bs)
  {
    hide TransactionBytes;
  }

  lemma NothingUnfinished(bs: nat)
    ensures Unfinished([], bs)
  {
    var t := Transaction([], Abort);
    assert IsTransaction(t, bs) && [] < TransactionBytes(t, bs);
  }

  /** The running transaction. */
  lemma RunningUnfinished(writes: seq<Record>, bs: nat)
    requires AreWrites(writes, bs)
    ensures Unfinished(Bytes(Begin, bs) + AllBytes(writes, bs), bs)
  {
    hide AllBytes;
    var t := Transaction(writes, Abort);
    assert IsTransaction(t, bs);
    assert Bytes(Begin, bs) + AllBytes(writes, bs) < TransactionBytes(t, bs);
  }

  /** The committed part with any part of an unfinished transaction. */
  lemma PrefixSurvives(s: seq<byte>, header: seq<byte>, bs: nat, history: seq<Transaction>, durable: nat, tail: seq<byte>)
    requires AreTransactions(history, bs) && durable <= |history| && Unfinished(tail, bs)
    requires Between(s, header + LogBytes(history, bs), header + LogBytes(history, bs) + tail)
    ensures Survives(s, header, bs, history, durable)
  {
    hide LogBytes, Unfinished, Next;
    var c := header + LogBytes(history, bs);
    UnfinishedPrefix(s[|c|..], tail, bs);
    NextOfUnfinished(s[|c|..], bs);
    assert history[..|history|] == history;
    assert s[|header|..] == LogBytes(history, bs) + s[|c|..];
    assert Recovers(s[|header|..], bs, history[..|history|]);
  }

  /** More commits do not matter. */
  lemma SurvivesMore(s: seq<byte>, header: seq<byte>, bs: nat, history: seq<Transaction>, t: Transaction, durable: nat)
    requires Survives(s, header, bs, history, durable)
    ensures Survives(s, header, bs, history + [t], durable)
  {
    hide Recovers;
    var i :| durable <= i <= |history| && Recovers(s[|header|..], bs, history[..i]);
    assert (history + [t])[..i] == history[..i];
  }

  /** Any part of a transaction that is being committed: either it is complete or it does not count. */
  lemma CommitSurvives(s: seq<byte>, header: seq<byte>, bs: nat, history: seq<Transaction>, durable: nat, t: Transaction)
    requires AreTransactions(history, bs) && durable <= |history| && IsTransaction(t, bs)
    requires Between(s, header + LogBytes(history, bs), header + LogBytes(history + [t], bs))
    ensures Survives(s, header, bs, history + [t], durable)
  {
    hide LogBytes, Unfinished, TransactionBytes, IsTransaction;
    LogBytesLast(history, t, bs);
    var c, all := header + LogBytes(history, bs), header + LogBytes(history + [t], bs);
    assert all == c + TransactionBytes(t, bs);
    if s == all {
      NothingUnfinished(bs);
      assert all + [] == all;
      PrefixSurvives(s, header, bs, history + [t], durable, []);
    } else {
      var tail := s[|c|..];
      assert tail < TransactionBytes(t, bs);
      IsUnfinished(tail, t, bs);
      assert s == c + tail;
      PrefixSurvives(s, header, bs, history, durable, tail);
      SurvivesMore(s, header, bs, history, t, durable);
    }
  }

  lemma IsUnfinished(s: seq<byte>, t: Transaction, bs: nat)
    requires IsTransaction(t, bs) && s < TransactionBytes(t, bs)
    ensures Unfinished(s, bs)
  {
    hide TransactionBytes, IsTransaction;
  }

  /** After a crash the log restores exactly the state of one of the commits that may be the last one. */
  lemma {:induction false} CrashRecovery(s: seq<byte>, header: seq<byte>, bs: nat, history: seq<Transaction>, durable: nat)
    requires Survives(s, header, bs, history, durable)
    ensures header <= s && exists i :: durable <= i <= |history| && Restore(s[|header|..], bs, NOTHING).0 == After(history[..i])
  {
    hide Recovers, Restore, After;
    var i :| durable <= i <= |history| && Recovers(s[|header|..], bs, history[..i]);
    RecoversOk(s[|header|..], bs, history[..i]);
  }

  class Journal {
    const log: LogFile
    const header: seq<byte>
    const bs: nat
    const capacity: nat

    var buffer: seq<byte>
    var positions: map<nat, nat>
    var databaseSize: Option<nat>
    var inTransaction: bool
    var transactionBegin: nat
    var uncommitted: map<nat, nat>

    /** The transactions in the log, how many of them survive every crash, and the writes of the running one. */
    ghost var history: seq<Transaction>
    ghost var durable: nat
    ghost var writes: seq<Record>

    /** The log, of which the end may still be in the buffer. */
    ghost function Log(): seq<byte>
      reads `buffer, log
    {
      log.content + buffer
    }

    /** A journal whose log was not scanned yet. */
    constructor (log: LogFile, bs: nat, capacity: nat)
      requires log.Valid() && 0 < capacity && bs < Pow256(4)
      ensures Unread() && this.log == log && this.header == Header(bs) && this.bs == bs && this.capacity == capacity
    {
      this.log, this.header, this.bs, this.capacity := log, Header(bs), bs, capacity;
      buffer, positions, databaseSize := [], map[], None;
      inTransaction, transactionBegin, uncommitted := false, 0, map[];
      history, durable, writes := [], 0, [];
    }

    ghost predicate Formed()
      reads `buffer, log
    {
      log.Valid() && 0 < capacity && |buffer| <= capacity
    }

    /** Nothing is known of the log yet. */
    ghost predicate Unread()
      reads this, log
    {
      && Formed() && bs < Pow256(4) && header == Header(bs) && buffer == [] && positions == map[] && databaseSize == None
      && !inTransaction && uncommitted == map[] && history == [] && writes == []
    }

    // ---- The buffer.

    /** Writes the buffer to the end of the file. */
    method Flush()
      requires Formed()
      modifies `buffer, log
      ensures old(log.seen) <= log.seen
      ensures Formed() && buffer == [] && log.content == old(Log())
      ensures forall s :: s in log.images ==> s in old(log.images) || Between(s, old(log.content), old(Log()))
      ensures forall s :: s in log.seen ==> s in old(log.seen) || Between(s, old(log.content), old(Log()))
    {
      if |buffer| > 0 {
        ghost var c := log.content;
        log.Write(|log.content|, buffer);
        forall s | PartOf(c, |c|, buffer, s) ensures Between(s, c, c + buffer) {
        }
        buffer := [];
      }
      assert log.content == log.content + [];
    }

    /** Appends as much to the log as the buffer has space for. */
    method AppendSome(data: seq<byte>) returns (n: nat)
      requires Formed() && |data| > 0
      modifies `buffer, log
      ensures old(log.seen) <= log.seen
      ensures Formed() && 0 < n <= |data| && Log() == old(Log()) + data[..n] && old(log.content) <= log.content
      ensures forall s :: s in log.images ==> s in old(log.images) || Between(s, old(log.content), old(Log()))
      ensures forall s :: s in log.seen ==> s in old(log.seen) || Between(s, old(log.content), old(Log()))
    {
      hide Between;
      if |buffer| == capacity {
        Flush();
      }
      n := Least(capacity - |buffer|, |data|);
      assert log.content + (buffer + data[..n]) == log.content + buffer + data[..n];
      assert log.content + buffer == old(Log());
      buffer := buffer + data[..n];
    }

    /** Appends to the log, with as many flushes as that takes. */
    method Append(data: seq<byte>)
      requires Formed()
      modifies `buffer, log
      ensures old(log.seen) <= log.seen
      ensures Formed() && Log() == old(Log()) + data && old(log.content) <= log.content
      ensures forall s :: s in log.images ==> s in old(log.images) || Between(s, old(log.content), Log())
      ensures forall s :: s in log.seen ==> s in old(log.seen) || Between(s, old(log.content), Log())
    {
      hide Between;
      var rest := data;
      while |rest| > 0
        invariant Formed() && Log() + rest == old(Log()) + data && old(log.content) <= log.content <= Log()
        invariant old(log.seen) <= log.seen
        invariant forall s :: s in log.images ==> s in old(log.images) || Between(s, old(log.content), Log())
        invariant forall s :: s in log.seen ==> s in old(log.seen) || Between(s, old(log.content), Log())
        decreases |rest|
      {
        ghost var c, l := log.content, Log();
        var n := AppendSome(rest);
        assert rest == rest[..n] + rest[n..];
        forall s ensures (Between(s, c, l) || Between(s, old(log.content), l)) ==> Between(s, old(log.content), Log()) {
          BetweenWider(s, c, l, old(log.content), Log());
          BetweenWider(s, old(log.content), l, old(log.content), Log());
        }
        rest := rest[n..];
      }
    }

    method AppendBoth(a: seq<byte>, b: seq<byte>)
      requires Formed()
      modifies `buffer, log
      ensures old(log.seen) <= log.seen
      ensures Formed() && Log() == old(Log()) + a + b && old(log.content) <= log.content
      ensures forall s :: s in log.images ==> s in old(log.images) || Between(s, old(log.content), Log())
      ensures forall s :: s in log.seen ==> s in old(log.seen) || Between(s, old(log.content), Log())
    {
      hide Between;
      Append(a);
      ghost var c, l := log.content, Log();
      Append(b);
      forall s ensures Between(s, c, Log()) || Between(s, old(log.content), l) ==> Between(s, old(log.content), Log()) {
        BetweenWider(s, c, Log(), old(log.content), Log());
        BetweenWider(s, old(log.content), l, old(log.content), Log());
      }
    }

    /** Reads from the file and the buffer. */
    method ReadAt(at: nat, n: nat) returns (data: seq<byte>)
      requires Formed() && at + n <= |Log()|
      ensures data == Log()[at..at + n]
    {
      data := [];
      var from := at;
      if from < |log.content| {
        var m := Least(n, |log.content| - from);
        data := log.content[from..from + m];
        from := from + m;
      }
      if from < at + n {
        data := data + buffer[from - |log.content|..at + n - |log.content|];
      }
    }

    /** Overwrites a part of the log in the file and the buffer. */
    method WriteAt(at: nat, data: seq<byte>)
      requires Formed() && at + |data| <= |Log()|
      modifies `buffer, log
      ensures old(log.seen) <= log.seen
      ensures Formed() && Log() == Splice(old(Log()), at, data) && |log.content| == |old(log.content)|
      ensures forall s :: s in log.images ==> s in old(log.images) || Patched(s, old(log.content), at, data)
      ensures forall s :: s in log.seen ==> s in old(log.seen) || Patched(s, old(log.content), at, data)
    {
      var from := at;
      ghost var c, b := log.content, buffer;
      if from < |log.content| {
        var m := Least(|data|, |log.content| - from);
        log.Write(from, data[..m]);
        forall s | PartOf(c, at, data[..m], s) ensures Patched(s, c, at, data) {
          PartIsPatched(c, at, data, m, s);
        }
        from := from + m;
      }
      if from < at + |data| {
        var o := from - |log.content|;
        var rest := data[from - at..];
        buffer := buffer[..o] + rest + buffer[o + |rest|..];
      }
    }

    // ---- The invariant.

    ghost function Committed(): seq<byte>
      requires AreTransactions(history, bs)
      reads `history
    {
      header + LogBytes(history, bs)
    }

    /** What is in the log behind the committed part. */
    ghost function Running(): seq<byte>
      requires AreWrites(writes, bs)
      reads `writes, `inTransaction
    {
      if inTransaction then Bytes(Begin, bs) + AllBytes(writes, bs) else []
    }

    ghost predicate Ordered()
      reads `buffer, `history, `durable, `writes, `inTransaction, `transactionBegin, log
    {
      && AreTransactions(history, bs) && AreWrites(writes, bs) && durable <= |history|
      && Log() == Committed() + Running() && |Committed()| <= |log.content|
      && if inTransaction then transactionBegin == |Committed()| else writes == [] && buffer == []
    }

    ghost predicate Indexed()
      requires AreTransactions(history, bs) && AreWrites(writes, bs)
      reads `positions, `uncommitted, `databaseSize, `history, `writes
    {
      && Located(positions, After(history).blocks, Committed(), bs) && databaseSize == After(history).size
      && Placed(uncommitted, writes, bs, |Committed()| + 1)
    }

    ghost predicate Valid()
      reads this, log
    {
      Formed() && Ordered() && Indexed() && AllSurvive(log.images, header, bs, history, durable)
    }

    /** The blocks as the running transaction sees them. */
    ghost function Current(): map<nat, Block>
      reads `history, `writes
    {
      Written(After(history).blocks, writes)
    }

    // ---- Transactions.

    method Start()
      requires Valid() && !inTransaction
      modifies this, log
      ensures old(log.seen) <= log.seen
      ensures Valid() && inTransaction && writes == [] && history == old(history) && durable == old(durable)
      ensures AllSurvive(old(log.seen), header, bs, history, durable) ==> AllSurvive(log.seen, header, bs, history, durable)
    {
      hide LogBytes, After, Survives, Located, Between;
      ghost var c := Committed();
      assert log.content == c by { assert log.content + [] == log.content && c + [] == c; }
      var size := |log.content| + |buffer|;
      Append([1]);
      inTransaction, transactionBegin := true, size;
      NoBytes(bs);
      assert [1] + [] == [1] && Running() == [1];
      assert Log() == header + LogBytes(history, bs) + Running();
      RunningUnfinished(writes, bs);
      KeepSafe(old(log.images), log.images, header, bs, history, durable, c, Running());
      KeepSafe(old(log.seen), log.seen, header, bs, history, durable, c, Running());
    }

    lemma Unpack()
      requires Valid()
      ensures Formed() && Ordered() && AreTransactions(history, bs) && AreWrites(writes, bs) && durable <= |history|
      ensures Located(positions, After(history).blocks, Committed(), bs) && Placed(uncommitted, writes, bs, |Committed()| + 1)
      ensures databaseSize == After(history).size
      ensures AllSurvive(log.images, header, bs, history, durable)
    {}

    /** Outside of transactions the log consists of what was committed. */
    lemma Idle()
      requires Formed() && AreTransactions(history, bs) && durable <= |history| && log.content == Committed() && buffer == []
      requires writes == [] && !inTransaction && uncommitted == map[] && databaseSize == After(history).size
      requires Located(positions, After(history).blocks, Committed(), bs) && AllSurvive(log.images, header, bs, history, durable)
      ensures Valid()
    {
      hide LogBytes, After, AllSurvive, Located;
      assert Committed() + [] == Committed() && log.content + [] == log.content;
    }

    lemma CommittedInFile()
      requires Formed() && Ordered()
      ensures Committed() <= log.content
    {
      assert Log()[..|Committed()|] == Committed();
      assert log.content[..|Committed()|] == Log()[..|Committed()|];
    }

    /** Writes a block that the running transaction has not written before. */
    method WriteNew(index: nat, data: Block)
      requires Valid() && inTransaction && index !in uncommitted && index < U64_END && |data| == bs
      modifies this, log
      ensures old(log.seen) <= log.seen
      ensures Valid() && inTransaction && history == old(history) && durable == old(durable)
      ensures writes == old(writes) + [Record.Write(index, data)] && Current() == old(Current())[index := data]
      ensures AllSurvive(old(log.seen), header, bs, history, durable) ==> AllSurvive(log.seen, header, bs, history, durable)
    {
      hide LogBytes, After, Survives, Located, Between, Bytes, Encode, AllBytes, Placed, Written;
      ghost var c, w := Committed(), Record.Write(index, data);
      CommittedInFile();
      var head := [4] + Encode(index, 8);
      AppendBoth(head, data);
      RecordParts(w, bs, head);
      AllBytesLast(writes, w, bs);
      var size := |log.content| + |buffer|;
      AppendedLog(c, Bytes(Begin, bs), AllBytes(writes, bs), head, data);
      PlacedMore(uncommitted, writes, bs, |c| + 1, w);
      WrittenMore(After(history).blocks, writes, w);
      uncommitted := uncommitted[index := size - bs];
      writes := writes + [w];
      RunningUnfinished(writes, bs);
      KeepSafe(old(log.images), log.images, header, bs, history, durable, old(log.content), Running());
      KeepSafe(old(log.seen), log.seen, header, bs, history, durable, old(log.content), Running());
    }

    /** Writes a block again that the running transaction has written before, in its place. */
    method Rewrite(index: nat, data: Block)
      requires Valid() && inTransaction && index in uncommitted && |data| == bs
      modifies this, log
      ensures old(log.seen) <= log.seen
      ensures Valid() && inTransaction && history == old(history) && durable == old(durable) && Current() == old(Current())[index := data]
      ensures AllSurvive(old(log.seen), header, bs, history, durable) ==> AllSurvive(log.seen, header, bs, history, durable)
    {
      hide LogBytes, After, Survives, Located, Bytes, AllBytes, Written, DataAt, Patched, Splice, Placed;
      ghost var c := Committed();
      ghost var k := IndexOf(uncommitted, writes, bs, |c| + 1, index);
      CommittedInFile();
      RewrittenWhole(c, writes, bs, k, data);
      RewrittenIndex(After(history).blocks, writes, bs, uncommitted, |c| + 1, k, data);
      PatchesSurvive(log.content, c, writes, bs, k, data, header, history, durable);
      WriteAt(uncommitted[index], data);
      writes := writes[k := Record.Write(index, data)];
    }

    method Write(index: nat, data: Block)
      requires Valid() && inTransaction && index < U64_END && |data| == bs
      modifies this, log
      ensures old(log.seen) <= log.seen
      ensures Valid() && inTransaction && history == old(history) && durable == old(durable) && Current() == old(Current())[index := data]
      ensures AllSurvive(old(log.seen), header, bs, history, durable) ==> AllSurvive(log.seen, header, bs, history, durable)
    {
      hide Journal.Valid, Journal.Current, AllSurvive;
      if index in uncommitted {
        Rewrite(index, data);
      } else {
        WriteNew(index, data);
      }
    }

    /**
    Makes the running transaction the last one. From then on it survives every crash, if the file is synced;
    at a crash before, the log restores the state with or without it.
    */
    method Commit(size: nat, sync: bool)
      requires Valid() && inTransaction && size < U64_END
      modifies this, log
      ensures old(log.seen) <= log.seen
      ensures Valid() && !inTransaction && history == old(history) + [Transaction(old(writes), Record.Commit(size))]
      ensures After(history) == Image(Below(old(Current()), size), Some(size)) && databaseSize == Some(size)
      ensures durable == if sync then |history| else old(durable)
      ensures AllSurvive(old(log.seen), header, bs, old(history), old(durable)) ==> AllSurvive(log.seen, header, bs, history, old(durable))
    {
      hide LogBytes, After, AllSurvive, Located, Placed, Tracks, Written, Below, Merged, AreWrites, AreTransactions, Journal.Valid, Journal.Formed, Journal.Ordered;
      Unpack();
      ghost var t := Transaction(writes, Record.Commit(size));
      PlacedTracks(uncommitted, writes, bs, |Committed()| + 1);
      LocatedMore(positions, After(history).blocks, bs, history, t, header, uncommitted);
      AfterCommit(history, t);
      FinishLog(size, sync);
      Adopt(size, t, if sync then |history| + 1 else durable);
    }

    /** The state after a commit, when the log is finished. */
    method Adopt(size: nat, ghost t: Transaction, ghost durable': nat)
      requires Formed() && buffer == [] && AreTransactions(history + [t], bs) && durable' <= |history| + 1
      requires log.content == header + LogBytes(history + [t], bs) && After(history + [t]).size == Some(size)
      requires Located(Merged(positions, uncommitted, size), After(history + [t]).blocks, header + LogBytes(history + [t], bs), bs)
      requires AllSurvive(log.images, header, bs, history + [t], durable')
      modifies this
      ensures Valid() && !inTransaction && history == old(history) + [t] && durable == durable' && writes == [] && databaseSize == Some(size)
    {
      hide LogBytes, After, AllSurvive, Located, Merged, AreTransactions, Journal.Valid;
      positions, databaseSize := Merged(positions, uncommitted, size), Some(size);
      history, writes, durable := history + [t], [], durable';
      inTransaction, transactionBegin, uncommitted := false, 0, map[];
      Idle();
    }

    /** Writes the record that ends the running transaction. */
    method FinishLog(size: nat, sync: bool)
      requires Formed() && Ordered() && inTransaction && size < U64_END && AllSurvive(log.images, header, bs, history, durable)
      modifies `buffer, log
      ensures old(log.seen) <= log.seen
      ensures Formed() && buffer == [] && var t := Transaction(writes, Record.Commit(size));
              && AreTransactions(history + [t], bs) && log.content == header + LogBytes(history + [t], bs)
              && AllSurvive(log.images, header, bs, history + [t], if sync then |history| + 1 else durable)
              && (AllSurvive(old(log.seen), header, bs, history, durable) ==> AllSurvive(log.seen, header, bs, history + [t], durable))
    {
      hide LogBytes, Survives, Between, Bytes, Encode, AllBytes, TransactionBytes;
      ghost var c, t := Committed(), Transaction(writes, Record.Commit(size));
      CommittedInFile();
      AppendAndFlush([3] + Encode(size, 8));
      CommittedLog(header, bs, history, t, c + Running());
      CommitsSurvive(old(log.images), log.images, header, bs, history, durable, t, old(log.content));
      CommitsSurvive(old(log.seen), log.seen, header, bs, history, durable, t, old(log.content));
      if sync {
        log.Sync();
        LastSurvives(header, bs, history + [t]);
      }
    }

    method AppendAndFlush(data: seq<byte>)
      requires Formed()
      modifies `buffer, log
      ensures old(log.seen) <= log.seen
      ensures Formed() && log.content == old(Log()) + data && buffer == []
      ensures forall s :: s in log.images ==> s in old(log.images) || Between(s, old(log.content), log.content)
      ensures forall s :: s in log.seen ==> s in old(log.seen) || Between(s, old(log.content), log.content)
    {
      hide Between;
      Append(data);
      ghost var c, l := log.content, Log();
      Flush();
      forall s ensures Between(s, c, l) || Between(s, old(log.content), l) ==> Between(s, old(log.content), log.content) {
        BetweenWider(s, c, l, old(log.content), log.content);
        BetweenWider(s, old(log.content), l, old(log.content), log.content);
      }
    }

    method Abort()
      requires Valid() && inTransaction
      modifies this, log
      ensures old(log.seen) <= log.seen
      ensures Valid() && !inTransaction && history == old(history) && durable == old(durable) && Current() == After(history).blocks
      ensures AllSurvive(old(log.seen), header, bs, history, durable) ==> AllSurvive(log.seen, header, bs, history, durable)
    {
      hide LogBytes, After, Survives, Located, Bytes, AllBytes, Placed, Journal.Valid;
      Unpack();
      ghost var c := Committed();
      CommittedInFile();
      if transactionBegin < |log.content| {
        log.Truncate(transactionBegin);
        buffer := [];
      } else {
        buffer := buffer[..transactionBegin - |log.content|];
      }
      inTransaction, transactionBegin, uncommitted := false, 0, map[];
      writes := [];
      assert log.content == c && c + [] == c;
      NothingUnfinished(bs);
      KeepSafe(old(log.images), log.images, header, bs, history, durable, c, []);
      KeepSafe(old(log.seen), log.seen, header, bs, history, durable, c, []);
      Idle();
    }

    /** The block as the running transaction sees it, if the journal has it. */
    method Read(index: nat) returns (r: Option<Block>)
      requires Valid()
      ensures r == if index in Current() then Some(Current()[index]) else None
    {
      hide LogBytes, After, AllSurvive, Bytes, AllBytes, Written, Located, Placed;
      if inTransaction && index in uncommitted {
        UncommittedThere(index);
        var data := ReadAt(uncommitted[index], bs);
        return Some(data);
      }
      CommittedThere(index);
      if index in positions {
        var data := ReadAt(positions[index], bs);
        return Some(data);
      }
      return None;
    }

    lemma UncommittedThere(index: nat)
      requires Formed() && Ordered() && Indexed() && inTransaction && index in uncommitted
      ensures uncommitted[index] + bs <= |Log()| && index in Current()
      ensures Log()[uncommitted[index]..uncommitted[index] + bs] == Current()[index]
    {
      hide LogBytes, After, Bytes, AllBytes, Written, Located, DataAt, Placed, Tracks;
      PlacedTracks(uncommitted, writes, bs, |Committed()| + 1);
      WrittenIs(After(history).blocks, writes, bs, uncommitted, |Committed()| + 1, index);
      var k :| 0 <= k < |writes| && uncommitted[index] == |Committed()| + 1 + DataAt(writes, bs, k) && Current()[index] == writes[k].data;
      DataInLog(Committed(), writes, bs, k, []);
      assert Committed() + Running() + [] == Log();
    }

    lemma CommittedThere(index: nat)
      requires Formed() && Ordered() && Indexed() && (!inTransaction || index !in uncommitted)
      ensures index in positions <==> index in Current()
      ensures index in positions ==>
                positions[index] + bs <= |Log()| && Log()[positions[index]..positions[index] + bs] == Current()[index]
    {
      hide LogBytes, After, Bytes, AllBytes, Written, DataAt, Placed, Tracks;
      PlacedTracks(uncommitted, writes, bs, |Committed()| + 1);
      WrittenIs(After(history).blocks, writes, bs, uncommitted, |Committed()| + 1, index);
      if index in positions {
        assert Log()[positions[index]..positions[index] + bs] == Committed()[positions[index]..positions[index] + bs];
      }
    }

    // ---- Opening.

    /** The transactions up to `end` are known. */
    ghost predicate Scanned(end: nat)
      reads `positions, `databaseSize, `history, log
    {
      && AreTransactions(history, bs) && end <= |log.content| && log.content[..end] == Committed()
      && Located(positions, After(history).blocks, Committed(), bs) && databaseSize == After(history).size
    }

    /** Applies the transaction that was found at the end of the known ones. */
    method Replay(found: Found, ghost end: nat, ghost ws: seq<Record>)
      requires found.Found? && Scanned(end) && end <= found.next <= |log.content|
      requires IsTransaction(Transaction(ws, found.last), bs) && Tracks(found.positions, ws, bs, end + 1)
      requires log.content[end..found.next] == TransactionBytes(Transaction(ws, found.last), bs)
      modifies `positions, `databaseSize, `history
      ensures Scanned(found.next)
    {
      hide LogBytes, TransactionBytes, Tracks, Located, After, Merged, Written, Below, IsTransaction, AreTransactions;
      ghost var t := Transaction(ws, found.last);
      LogBytesLast(history, t, bs);
      assert log.content[..found.next] == log.content[..end] + log.content[end..found.next];
      assert header + LogBytes(history, bs) + TransactionBytes(t, bs) == header + (LogBytes(history, bs) + TransactionBytes(t, bs));
      EndsIt(t, bs);
      if found.last.Commit? {
        LocatedMore(positions, After(history).blocks, bs, history, t, header, found.positions);
        AfterCommit(history, t);
        positions, databaseSize := Merged(positions, found.positions, found.last.size), Some(found.last.size);
      } else {
        AfterAbort(history, t);
        LocatedLonger(positions, After(history).blocks, Committed(), header + LogBytes(history + [t], bs), bs);
      }
      history := history + [t];
    }

    /** Replays all transactions up to the first one that is not complete. */
    method ScanAll() returns (end: nat)
      requires Scanned(|header|)
      modifies `positions, `databaseSize, `history
      ensures Scanned(end) && Next(log.content[end..], bs).Stop?
    {
      hide Next, Journal.Scanned, TransactionBytes, Tracks, IsTransaction;
      end := |header|;
      ScannedWithin(end);
      while end < |log.content|
        invariant Scanned(end) && end <= |log.content|
      {
        var found, ws := ScanTransaction(log.content, end, bs);
        if found.Broken? {
          return;
        }
        Replay(found, end, ws);
        end := found.next;
      }
      assert log.content[end..] == [];
      NextOfNothing(bs);
    }

    lemma ScannedWithin(end: nat)
      requires Scanned(end)
      ensures end <= |log.content|
    {}

    method HasHeader() returns (ok: bool)
      requires bs < Pow256(4) && header == Header(bs)
      ensures ok <==> header <= log.content
    {
      hide Header, Decode;
      var s := log.content;
      if |s| < 28 {
        return false;
      }
      HeaderIs(s, bs);
      return s[..20] == MAGIC && Decode(s[20..24]) == VERSION && Decode(s[24..28]) == bs;
    }

    /** Starts an empty log. */
    method Initialize()
      requires Unread() && log.content == []
      modifies log, `durable
      ensures Valid() && durable == 0
      ensures forall s :: s in log.seen ==> s in old(log.seen) || s <= header
    {
      hide Journal.Valid, Header;
      log.Write(0, Header(bs));
      forall s | PartOf([], 0, header, s) ensures s <= header {
      }
      log.Sync();
      durable := 0;
      assert header + LogBytes([], bs) == header;
      LastSurvives(header, bs, []);
      Idle();
    }

    /**
    Opens the log. An empty file gets a header; otherwise the transactions in it are replayed up to the first one that
    is not complete, and what follows is cut off. Files that start with anything but the header are refused.
    */
    method Open() returns (ok: bool)
      requires Unread()
      modifies this, log
      ensures ok <==> old(log.content) == [] || header <= old(log.content)
      ensures ok ==> Valid() && !inTransaction && durable == |history|
      ensures old(log.content) == [] ==> history == [] && forall s :: s in log.seen ==> s in old(log.seen) || s <= header
      ensures ok && old(log.content) != [] ==>
                && Recovers(old(log.content)[|header|..], bs, history) && log.content == header + LogBytes(history, bs)
                && log.seen == old(log.seen) + iset{log.content}
      ensures !ok ==> log.content == old(log.content) && log.seen == old(log.seen) && log.images == old(log.images)
    {
      hide Journal.Valid, Header, Next, Recovers, LogBytes, After, Located;
      if |log.content| == 0 {
        Initialize();
        return true;
      }
      ok := HasHeader();
      if ok {
        StartScan();
        var end := ScanAll();
        RestoredAll(log.content, header, bs, history, end);
        log.Truncate(end);
        log.Sync();
        LastSurvives(header, bs, history);
        durable := |history|;
        Idle();
      }
    }

    lemma StartScan()
      requires Unread() && header <= log.content
      ensures Scanned(|header|)
    {
      assert header + LogBytes([], bs) == header;
    }

    /** What can be read from a log whose end was not cut off. */
    ghost predicate Readable()
      reads this, log
    {
      && Formed() && buffer == [] && !inTransaction && AreTransactions(history, bs)
      && Located(positions, After(history).blocks, log.content, bs) && databaseSize == After(history).size
    }

    /** Opens the log of a file that may not be written to, which is left as it is. An empty file has no transactions. */
    method OpenForReading() returns (ok: bool)
      requires Unread()
      modifies `positions, `databaseSize, `history
      ensures ok <==> log.content == [] || header <= log.content
      ensures ok ==> Readable() && if log.content == [] then history == [] else Recovers(log.content[|header|..], bs, history)
    {
      hide Header, Next, Recovers, LogBytes, After, Located;
      if |log.content| == 0 {
        StartReading();
        return true;
      }
      ok := HasHeader();
      if ok {
        StartScan();
        var end := ScanAll();
        RestoredAll(log.content, header, bs, history, end);
        LocatedLonger(positions, After(history).blocks, Committed(), log.content, bs);
      }
    }

    lemma StartReading()
      requires Unread()
      ensures Located(positions, After(history).blocks, log.content, bs) && databaseSize == After(history).size
    {}

    /** Reads a committed block of a log that was opened for reading. */
    method ReadOnly(index: nat) returns (r: Option<Block>)
      requires Readable()
      ensures var blocks := After(history).blocks; r == if index in blocks then Some(blocks[index]) else None
    {
      hide After;
      assert Log() == log.content + [] == log.content;
      if index in positions {
        var data := ReadAt(positions[index], bs);
        return Some(data);
      }
      return None;
    }

    // ---- Checkpoints.

    /** The block that the journal has for a position. */
    lemma PositionOf(i: nat)
      requires Valid() && !inTransaction
      ensures i in positions <==> i in After(history).blocks
      ensures i in positions ==>
                positions[i] + bs <= |Log()| && Log()[positions[i]..positions[i] + bs] == After(history).blocks[i]
    {
      hide LogBytes, After, AllSurvive, Bytes, AllBytes, Located, Placed;
      CommittedThere(i);
    }

    /** Copies one block of the journal to the database file. */
    method CopyBlock(db: DatabaseFile, i: nat, ghost first: seq<Block>, ghost base: seq<Block>, ghost rest: set<nat>)
      requires Valid() && !inTransaction && databaseSize.Some? && db.Valid() && db.bs == bs && i in positions && i in rest
      requires |db.blocks| == databaseSize.value && Copied(After(history), first, db.blocks, rest) && AllSame(After(history), base, db.seen, bs)
      modifies db
      ensures db.Valid() && Copied(After(history), first, db.blocks, rest - {i}) && AllSame(After(history), base, db.seen, bs)
      ensures |db.blocks| == databaseSize.value
    {
      hide Journal.Valid, After, AllSame, Copied, AfterWrite;
      ghost var m := After(history);
      SizeKnown();
      AfterBelow(history);
      CopiedSize(m, first, db.blocks, rest);
      PositionOf(i);
      var block := ReadAt(positions[i], bs);
      CopiedMore(m, first, db.blocks, rest, i);
      ghost var images, seen := db.images, db.seen;
      db.Write(i, block);
      SameAfterWrite(m, base, images, seen, db.seen, bs, i);
    }

    /** Copies the blocks of the journal to the database file. */
    method CopyBlocks(db: DatabaseFile, ghost base: seq<Block>)
      requires Valid() && !inTransaction && databaseSize.Some? && db.Valid() && db.bs == bs && |db.blocks| == databaseSize.value
      requires AllSame(After(history), base, db.seen, bs)
      modifies db
      ensures db.Valid() && |db.blocks| == databaseSize.value && db.blocks == View(After(history), old(db.blocks), bs)
      ensures AllSame(After(history), base, db.seen, bs)
    {
      hide Journal.Valid, After, AllSame, View, Copied;
      ghost var m := After(history);
      SizeKnown();
      PositionsKnown();
      var rest := positions.Keys;
      ghost var first := db.blocks;
      CopiedNone(m, first);
      while rest != {}
        invariant db.Valid() && rest <= positions.Keys && Copied(m, first, db.blocks, rest) && |db.blocks| == databaseSize.value
        invariant AllSame(m, base, db.seen, bs)
        decreases |rest|
      {
        var i :| i in rest;
        CopyBlock(db, i, first, base, rest);
        rest := rest - {i};
      }
      CopiedAll(m, first, db.blocks, bs);
    }

    lemma PositionsKnown()
      requires Valid() && !inTransaction
      ensures positions.Keys == After(history).blocks.Keys
    {
      hide LogBytes, After, AllSurvive, Placed;
    }

    /** Brings the database file to the state of the journal; a crash in between changes nothing, because the journal is complete. */
    method Transfer(db: DatabaseFile) returns (changed: bool)
      requires Valid() && !inTransaction && databaseSize.Some? && db.Valid() && db.bs == bs && db.seen == db.images == iset{db.blocks}
      modifies db
      ensures db.Valid() && db.images == iset{db.blocks} && db.blocks == View(After(history), old(db.blocks), bs)
      ensures forall d :: d in db.seen ==>
                && View(After(history), d, bs) == View(After(history), old(db.blocks), bs)
                && (|d| <= |old(db.blocks)| || |d| <= databaseSize.value)
      ensures changed <==> |old(db.blocks)| != databaseSize.value || After(history).blocks != map[]
    {
      hide Journal.Valid, After, AllSame, View, At, SameElsewhere, AfterResize;
      ghost var m := After(history);
      SizeKnown();
      ghost var base := db.blocks;
      SameAtFirst(m, base, bs);
      changed := false;
      if |db.blocks| != databaseSize.value {
        db.Resize(databaseSize.value);
        SameAfterResize(m, base, db.seen, bs);
        changed := true;
      }
      SameViewInside(m, base, db.blocks, bs, db.seen);
      CopyBlocks(db, base);
      PositionsKnown();
      changed := changed || positions != map[];
      db.Sync();
      forall d | d in db.seen ensures View(m, d, bs) == View(m, base, bs) && (|d| <= |base| || |d| <= databaseSize.value) {
        SameViewInside(m, base, d, bs, db.seen);
      }
    }

    /** Forgets everything, once it is safe in the database file. */
    method Clear(ghost db: DatabaseFile)
      requires Valid() && !inTransaction && log.images == iset{log.content}
      requires db.images == iset{db.blocks} && db.blocks == View(After(history), db.blocks, bs)
      modifies this, log
      ensures Valid() && !inTransaction && history == [] && durable == 0 && databaseSize == None && log.images == iset{log.content}
      ensures log.content == header && log.seen == old(log.seen) + iset{header}
    {
      hide Journal.Valid, After, Located, AllSurvive;
      CommittedStart();
      log.Truncate(|header|);
      log.Sync();
      buffer, positions, databaseSize := [], map[], None;
      history, durable, writes, uncommitted := [], 0, [], map[];
      ClearedIsIdle(header, bs);
      Idle();
    }

    lemma CommittedStart()
      requires Valid() && !inTransaction
      ensures Formed() && header <= log.content && log.content == Committed()
    {
      hide LogBytes, After, AllSurvive, Located, Placed;
      assert log.content + [] == log.content && Committed() + [] == Committed();
    }

    /** Makes all commits durable. */
    method SyncLog()
      requires Valid() && !inTransaction
      modifies log, `durable
      ensures Valid() && durable == |history| && log.content == old(log.content) && log.seen == log.images == iset{log.content} && log.seen <= old(log.seen)
    {
      hide Journal.Valid, LogBytes, After, Located, AllSurvive, Placed;
      CommittedStart();
      IdleParts();
      log.Sync();
      log.Watch();
      durable := |history|;
      LastSurvives(header, bs, history);
      LastAlone(log.images, header, bs, history);
      Idle();
    }

    lemma IdleParts()
      requires Valid() && !inTransaction
      ensures AreTransactions(history, bs) && buffer == [] && writes == [] && uncommitted == map[] && databaseSize == After(history).size
      ensures Located(positions, After(history).blocks, Committed(), bs)
    {
      hide LogBytes, After, AllSurvive, Located, AreTransactions;
    }

    /**
    Moves what was committed to the database file and empties the log. Whatever a crash leaves of the two files, they
    have the same database together as before; only sizes that do not fit 64 bits are refused.
    */
    method Checkpoint(db: DatabaseFile) returns (ok: bool, changed: bool, ghost crashes: iset<(seq<byte>, seq<Block>)>)
      requires Valid() && !inTransaction && db.Valid() && db.bs == bs && db.images == iset{db.blocks}
      modifies this, log, db
      ensures Valid() && !inTransaction && db.Valid() && db.images == iset{db.blocks}
      ensures !ok <==> old(databaseSize).Some? && old(databaseSize).value * bs >= U64_END
      ensures View(After(history), db.blocks, bs) == old(View(After(history), db.blocks, bs))
      ensures ok ==> After(history) == NOTHING
      ensures !ok ==> history == old(history) && durable == |history| && db.blocks == old(db.blocks)
      ensures !ok || old(databaseSize).None? ==> log.seen <= old(log.seen)
      ensures ok && old(databaseSize).Some? ==> history == [] && durable == 0
      ensures ok && old(databaseSize).None? ==> history == old(history) && durable == old(durable) && db.blocks == old(db.blocks)
      ensures ok ==> changed == old(databaseSize.Some? && (|db.blocks| != databaseSize.value || After(history).blocks != map[]))
      ensures ok && old(databaseSize).Some? ==> forall d :: d in db.seen ==> (old(log.content), d) in crashes
      ensures ok && old(databaseSize).Some? ==> forall l :: l in log.seen ==> (l, db.blocks) in crashes
      ensures forall c :: c in crashes ==> SameDatabase(c.0, c.1, header, bs, old(View(After(history), db.blocks, bs)))
      ensures forall c :: c in crashes ==> |c.1| <= |old(db.blocks)| || |c.1| <= |old(View(After(history), db.blocks, bs))|
    {
      hide Journal.Valid, After, View, SameDatabase, LogBytes;
      ok, changed, crashes := true, false, iset{};
      SizeKnown();
      AfterBelow(history);
      if databaseSize.None? {
        return;
      }
      SyncLog();
      if databaseSize.value * bs >= U64_END {
        ok := false;
        return;
      }
      CommittedStart();
      ghost var m, view, full := After(history), View(After(history), db.blocks, bs), log.content;
      db.Watch();
      changed := Transfer(db);
      crashes := iset d | d in db.seen :: (full, d);
      ViewSize(m, old(db.blocks), bs);
      forall d | d in db.seen ensures SameDatabase(full, d, header, bs, view) {
        FullLog(header, bs, history, d, view);
      }
      assert View(m, db.blocks, bs) == view;
      Clear(db);
      EmptyLog(header, bs, db.blocks);
      crashes := crashes + iset{(header, db.blocks)};
      AfterBelow(history);
    }

    lemma SizeKnown()
      requires Valid()
      ensures Formed() && databaseSize == After(history).size && AreTransactions(history, bs)
    {}
  }

  /** Images between the committed part and the log of an unfinished transaction are as good as those before. */
  lemma KeepSafe(images: iset<seq<byte>>, images': iset<seq<byte>>, header: seq<byte>, bs: nat, history: seq<Transaction>, durable: nat,
                 low: seq<byte>, tail: seq<byte>)
    requires AreTransactions(history, bs) && durable <= |history| && Unfinished(tail, bs) && header + LogBytes(history, bs) <= low
    requires forall s :: s in images' ==> s in images || Between(s, low, header + LogBytes(history, bs) + tail)
    ensures AllSurvive(images, header, bs, history, durable) ==> AllSurvive(images', header, bs, history, durable)
  {
    hide LogBytes, Unfinished, Survives, Between;
    var c := header + LogBytes(history, bs);
    forall s | s in images' && s !in images ensures Survives(s, header, bs, history, durable) {
      BetweenWider(s, low, c + tail, c, c + tail);
      PrefixSurvives(s, header, bs, history, durable, tail);
    }
  }

  lemma RecordParts(w: Record, bs: nat, head: seq<byte>)
    requires w.Write? && Fits(w, bs) && head == [4] + Encode(w.index, 8)
    ensures Bytes(w, bs) == head + w.data && |head| == 9
  {}

  lemma AppendedLog(c: seq<byte>, first: seq<byte>, all: seq<byte>, head: seq<byte>, data: seq<byte>)
    ensures c + (first + all) + head + data == c + (first + (all + (head + data)))
  {}

  /** A part of the overwritten block in the file, at a crash, does not matter. */
  lemma {:induction false} PatchesSurvive(content: seq<byte>, c: seq<byte>, writes: seq<Record>, bs: nat, k: nat, data: Block,
                                          header: seq<byte>, history: seq<Transaction>, durable: nat)
    requires AreTransactions(history, bs) && durable <= |history| && c == header + LogBytes(history, bs)
    requires AreWrites(writes, bs) && k < |writes| && |data| == bs && c <= content <= c + (Bytes(Begin, bs) + AllBytes(writes, bs))
    ensures forall s :: Patched(s, content, |c| + 1 + DataAt(writes, bs, k), data) ==> Survives(s, header, bs, history, durable)
  {
    hide LogBytes, AllBytes, Bytes, DataAt, Survives;
    var at := |c| + 1 + DataAt(writes, bs, k);
    forall s | Patched(s, content, at, data) ensures Survives(s, header, bs, history, durable) {
      var n :| 0 <= n <= |data| && at + n <= |content| && s == Splice(content, at, data[..n]);
      RewrittenLog(c, writes, bs, k, data[..n]);
      var w := Write(writes[k].index, data[..n] + writes[k].data[n..]);
      var all := c + (Bytes(Begin, bs) + AllBytes(writes, bs));
      SplicePrefix(content, all, at, data[..n]);
      RunningUnfinished(writes[k := w], bs);
      SpliceKeeps(content, c, at, data[..n]);
      PrefixSurvives(s, header, bs, history, durable, Bytes(Begin, bs) + AllBytes(writes[k := w], bs));
    }
  }

  lemma SplicePrefix(a: seq<byte>, b: seq<byte>, at: nat, data: seq<byte>)
    requires a <= b && at + |data| <= |a|
    ensures Splice(a, at, data) <= Splice(b, at, data)
  {
    assert b[..|a|] == a;
  }

  lemma SpliceKeeps(a: seq<byte>, c: seq<byte>, at: nat, data: seq<byte>)
    requires c <= a && |c| <= at && at + |data| <= |a|
    ensures c <= Splice(a, at, data)
  {}

  lemma CommittedLog(header: seq<byte>, bs: nat, history: seq<Transaction>, t: Transaction, log: seq<byte>)
    requires AreTransactions(history, bs) && AreWrites(t.writes, bs) && t.last.Commit? && Fits(t.last, bs)
    requires log == header + LogBytes(history, bs) + (Bytes(Begin, bs) + AllBytes(t.writes, bs))
    ensures AreTransactions(history + [t], bs) && log + ([3] + Encode(t.last.size, 8)) == header + LogBytes(history + [t], bs)
  {
    hide LogBytes, AllBytes, Encode;
    assert IsTransaction(t, bs);
    LogBytesLast(history, t, bs);
    var a, b, d := Bytes(Begin, bs), AllBytes(t.writes, bs), Bytes(t.last, bs);
    assert d == [3] + Encode(t.last.size, 8);
    assert header + LogBytes(history, bs) + (a + b) + d == header + (LogBytes(history, bs) + (a + b + d));
  }

  lemma CommitsSurvive(images: iset<seq<byte>>, images': iset<seq<byte>>, header: seq<byte>, bs: nat, history: seq<Transaction>, durable: nat,
                       t: Transaction, low: seq<byte>)
    requires AreTransactions(history + [t], bs) && AreTransactions(history, bs) && durable <= |history| && header + LogBytes(history, bs) <= low
    requires IsTransaction(t, bs)
    requires forall s :: s in images' ==> s in images || Between(s, low, header + LogBytes(history + [t], bs))
    ensures AllSurvive(images, header, bs, history, durable) ==> AllSurvive(images', header, bs, history + [t], durable)
  {
    hide LogBytes, Survives, Between, IsTransaction;
    if AllSurvive(images, header, bs, history, durable) {
      var c, all := header + LogBytes(history, bs), header + LogBytes(history + [t], bs);
      forall s | s in images' ensures Survives(s, header, bs, history + [t], durable) {
        if s in images {
          SurvivesMore(s, header, bs, history, t, durable);
        } else {
          BetweenWider(s, low, all, c, all);
          CommitSurvives(s, header, bs, history, durable, t);
        }
      }
    }
  }

  lemma LastSurvives(header: seq<byte>, bs: nat, history: seq<Transaction>)
    requires AreTransactions(history, bs)
    ensures Survives(header + LogBytes(history, bs), header, bs, history, |history|)
  {
    hide LogBytes, Unfinished;
    var c := header + LogBytes(history, bs);
    NothingUnfinished(bs);
    assert c + [] == c && Between(c, c, c + []);
    PrefixSurvives(c, header, bs, history, |history|, []);
  }

  /** A prefix of `data` over the bytes of a file. */
  ghost predicate Patched(s: seq<byte>, content: seq<byte>, at: nat, data: seq<byte>) {
    exists k :: 0 <= k <= |data| && at + k <= |content| && s == Splice(content, at, data[..k])
  }

  lemma PartIsPatched(c: seq<byte>, at: nat, data: seq<byte>, m: nat, s: seq<byte>)
    requires m <= |data| && at + m <= |c| && PartOf(c, at, data[..m], s)
    ensures Patched(s, c, at, data)
  {
    var k :| 0 <= k <= m && s == Overwrite(c, at, data[..m][..k]);
    assert data[..m][..k] == data[..k];
    assert s == Splice(c, at, data[..k]);
  }

  lemma RestoredAll(s: seq<byte>, header: seq<byte>, bs: nat, history: seq<Transaction>, end: nat)
    requires AreTransactions(history, bs) && end <= |s| && s[..end] == header + LogBytes(history, bs) && Next(s[end..], bs).Stop?
    ensures |header| <= |s| && Recovers(s[|header|..], bs, history)
  {
    hide LogBytes, Next;
    assert s[|header|..] == LogBytes(history, bs) + s[end..];
  }

  /** All files look like `base` under the journal. */
  ghost predicate AllSame(m: Image, base: seq<Block>, files: iset<seq<Block>>, bs: nat) {
    forall s :: s in files ==> SameElsewhere(m, base, s, bs)
  }

  /** The blocks of the journal are in the file, apart from those in `rest`. */
  ghost predicate Copied(m: Image, base: seq<Block>, file: seq<Block>, rest: set<nat>) {
    && |file| == |base|
    && forall i :: 0 <= i < |base| ==> file[i] == if i in m.blocks && i !in rest then m.blocks[i] else base[i]
  }

  lemma CopiedMore(m: Image, base: seq<Block>, file: seq<Block>, rest: set<nat>, i: nat)
    requires Copied(m, base, file, rest) && i in rest && i < |base| && i in m.blocks
    ensures Copied(m, base, file[i := m.blocks[i]], rest - {i})
  {}

  lemma CopiedAll(m: Image, base: seq<Block>, file: seq<Block>, bs: nat)
    requires Copied(m, base, file, {}) && m.size == Some(|base|)
    ensures file == View(m, base, bs)
  {}

  lemma SameAfterWrite(m: Image, base: seq<Block>, images: iset<seq<Block>>, seen: iset<seq<Block>>, seen': iset<seq<Block>>, bs: nat, i: nat)
    requires i in m.blocks && m.size.Some? && i < m.size.value && images <= seen && AllSame(m, base, seen, bs)
    requires forall s :: s in seen' ==> s in seen || AfterWrite(images, s, bs, i)
    ensures AllSame(m, base, seen', bs)
  {
    hide At;
  }

  lemma CopiedNone(m: Image, base: seq<Block>)
    ensures Copied(m, base, base, m.blocks.Keys)
  {}

  lemma CopiedSize(m: Image, base: seq<Block>, file: seq<Block>, rest: set<nat>)
    requires Copied(m, base, file, rest)
    ensures |file| == |base|
  {}

  lemma SameAfterResize(m: Image, base: seq<Block>, seen: iset<seq<Block>>, bs: nat)
    requires m.size.Some? && forall s :: s in seen ==> s == base || AfterResize(iset{base}, s, bs, m.size.value)
    ensures AllSame(m, base, seen, bs)
  {
    hide At;
  }

  lemma SameAtFirst(m: Image, base: seq<Block>, bs: nat)
    requires m.size.Some?
    ensures AllSame(m, base, iset{base}, bs)
  {}

  lemma SameViewInside(m: Image, base: seq<Block>, file: seq<Block>, bs: nat, files: iset<seq<Block>>)
    requires file in files && AllSame(m, base, files, bs)
    ensures View(m, file, bs) == View(m, base, bs) && m.size.Some? && (|file| <= |base| || |file| <= m.size.value)
  {
    SameView(m, base, file, bs);
  }

  lemma ClearedIsIdle(header: seq<byte>, bs: nat)
    ensures header + LogBytes([], bs) == header && Located(map[], After([]).blocks, header, bs) && After([]) == NOTHING
    ensures AllSurvive(iset{header}, header, bs, [], 0)
  {
    assert header + LogBytes([], bs) == header;
    LastSurvives(header, bs, []);
  }

  lemma LastAlone(images: iset<seq<byte>>, header: seq<byte>, bs: nat, history: seq<Transaction>)
    requires AreTransactions(history, bs) && images == iset{header + LogBytes(history, bs)}
    ensures AllSurvive(images, header, bs, history, |history|)
  {
    hide LogBytes, Survives;
    LastSurvives(header, bs, history);
  }

  /** What opening the two files gives. */
  ghost predicate SameDatabase(log: seq<byte>, file: seq<Block>, header: seq<byte>, bs: nat, view: seq<Block>) {
    header <= log && View(Restore(log[|header|..], bs, NOTHING).0, file, bs) == view
  }

  lemma FullLog(header: seq<byte>, bs: nat, history: seq<Transaction>, file: seq<Block>, view: seq<Block>)
    requires AreTransactions(history, bs) && View(After(history), file, bs) == view
    ensures SameDatabase(header + LogBytes(history, bs), file, header, bs, view)
  {
    hide LogBytes, Restore, View, After;
    RestoreAll(history, bs);
    assert (header + LogBytes(history, bs))[|header|..] == LogBytes(history, bs);
  }

  lemma EmptyLog(header: seq<byte>, bs: nat, file: seq<Block>)
    ensures SameDatabase(header, file, header, bs, file) && View(NOTHING, file, bs) == file && After([]) == NOTHING
  {
    hide Restore;
    assert View(NOTHING, file, bs) == file;
    FullLog(header, bs, [], file, file);
    assert header + LogBytes([], bs) == header;
  }

  // ---- After a crash.

  /** What is found in a log that a crash left behind. */
  lemma {:induction false} FoundAfterCrash(s: seq<byte>, header: seq<byte>, bs: nat, history: seq<Transaction>, durable: nat, found: seq<Transaction>)
    requires Survives(s, header, bs, history, durable) && Recovers(s[|header|..], bs, found)
    ensures exists i :: durable <= i <= |history| && found == history[..i]
  {
    hide Recovers;
    var i :| durable <= i <= |history| && Recovers(s[|header|..], bs, history[..i]);
    RecoversOne(s[|header|..], bs, found, history[..i]);
  }

  /** Opens a log that a crash left behind: the journal is that of a commit which may be the last one. */
  method Recover(s: seq<byte>, bs: nat, capacity: nat, ghost history: seq<Transaction>, ghost durable: nat) returns (j: Journal)
    requires bs < Pow256(4) && 0 < capacity && Survives(s, Header(bs), bs, history, durable)
    ensures fresh(j) && fresh(j.log) && j.Valid() && j.bs == bs && !j.inTransaction
    ensures exists i :: durable <= i <= |history| && j.history == history[..i]
    ensures AllSurvive(j.log.seen, j.header, bs, j.history, |j.history|)
  {
    hide Journal.Valid, Recovers, Header, LogBytes;
    var log := new LogFile(s);
    j := new Journal(log, bs, capacity);
    assert s != [];
    var ok := j.Open();
    FoundAfterCrash(s, j.header, bs, history, durable, j.history);
    j.CommittedStart();
    j.IdleParts();
    LastSurvives(j.header, bs, j.history);
    assert j.history[..|j.history|] == j.history;
  }
}
