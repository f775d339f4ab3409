/**
The engine with transactions: blocks are cached in memory, changes go to the journal, and the database file changes
only at checkpoints.
*/
module TransactionEngines {
  import opened Blocks
  import opened JournalFiles
  import opened JournalIndex
  import opened JournalLog
  import opened Journals
  import opened Wrappers

  datatype Error = NotStarted | AlreadyStarted | OutOfBounds | Overflow | WrongSize | StillPinned | AlreadyPinned

  /** A block as the journal and the database file have it. */
  function Behind(current: map<nat, Block>, file: seq<Block>, bs: nat, i: nat): Block {
    if i in current then current[i] else At(file, bs, i)
  }

  /** The blocks of a transaction: those in the cache take precedence. */
  function Shown(cache: map<nat, Block>, current: map<nat, Block>, file: seq<Block>, bs: nat, size: nat): seq<Block> {
    seq(size, i requires 0 <= i => if i in cache then cache[i] else Behind(current, file, bs, i))
  }

  /** Blocks in the cache that are not dirty are those behind it. */
  ghost predicate Coherent(cache: map<nat, Block>, dirty: set<nat>, current: map<nat, Block>, file: seq<Block>, bs: nat, size: nat) {
    && dirty <= cache.Keys && |file| <= size
    && (forall i :: i in dirty ==> i < size && |cache[i]| == bs)
    && (forall i :: i in current ==> i < size)
    && (forall i :: i in cache && i !in dirty ==> cache[i] == Behind(current, file, bs, i))
  }

  class TransactionEngine {
    const journal: Journal
    const db: DatabaseFile
    const sync: bool

    var size: nat
    var dbSize: nat
    var started: bool
    var cache: map<nat, Block>
    var dirty: set<nat>
    var pinned: set<nat>

    ghost function Committed(): nat
      reads journal`databaseSize, db`blocks
    {
      if journal.databaseSize.Some? then journal.databaseSize.value else |db.blocks|
    }

    ghost predicate Sized()
      reads this, journal, db
    {
      && db.Valid() && db.images == iset{db.blocks} && db.bs == journal.bs && dbSize == |db.blocks|
      && |db.blocks| <= Committed() <= size < U64_END
      && (journal.inTransaction || dirty != {} || pinned != {} ==> started) && pinned <= cache.Keys && (sync ==> journal.durable == |journal.history|)
    }

    ghost predicate Valid()
      reads this, journal, journal.log, db
    {
      journal.Valid() && Sized() && Coherent(cache, dirty, journal.Current(), db.blocks, journal.bs, size)
    }

    /** The blocks as the running transaction sees them. */
    ghost function Contents(): (s: seq<Block>)
      reads this, journal, db
      ensures |s| == size
    {
      Shown(cache, journal.Current(), db.blocks, journal.bs, size)
    }

    /** The blocks as the two files have them, when all commits count. */
    ghost function Stored(): seq<Block>
      reads journal, db
    {
      View(After(journal.history), db.blocks, journal.bs)
    }

    /** Whether the running transaction has changed blocks. */
    ghost predicate Wrote()
      reads this, journal
    {
      dirty != {} || journal.inTransaction
    }

    /** Opens the files; the size is that of the last commit in the journal, if there is one. */
    constructor (journal: Journal, db: DatabaseFile, sync: bool)
      requires journal.Valid() && !journal.inTransaction && journal.durable == |journal.history|
      requires db.Valid() && db.images == iset{db.blocks} && db.bs == journal.bs && |db.blocks| < U64_END
      requires journal.databaseSize.Some? ==> |db.blocks| <= journal.databaseSize.value
      ensures Valid() && this.journal == journal && this.db == db && this.sync == sync
      ensures !started && Contents() == Stored() && !Wrote() && pinned == {}
    {
      hide Journal.Valid, After, View, Shown, Behind;
      this.journal, this.db, this.sync := journal, db, sync;
      size := if journal.databaseSize.Some? then journal.databaseSize.value else |db.blocks|;
      dbSize, started, cache, dirty, pinned := |db.blocks|, false, map[], {}, {};
      new;
      AtRest();
      SameShown(After(journal.history), db.blocks, journal.bs, size);
    }

    /** Outside of transactions the journal shows what was committed. */
    lemma AtRest()
      requires journal.Valid() && !journal.inTransaction
      ensures journal.Current() == After(journal.history).blocks && journal.databaseSize == After(journal.history).size
      ensures var m := After(journal.history); if m.size.None? then m.blocks == map[] else m.size.value < U64_END && forall i :: i in m.blocks ==> i < m.size.value
    {
      hide Journal.Valid, After;
      journal.IdleParts();
      AfterBelow(journal.history);
      AfterFits(journal.history, journal.bs);
    }

    method Begin() returns (r: Outcome<Error>)
      requires Valid()
      modifies this
      ensures Valid() && started && Contents() == old(Contents()) && Wrote() == old(Wrote()) && pinned == old(pinned)
      ensures r == if old(started) then Fail(AlreadyStarted) else Pass
    {
      if started {
        return Fail(AlreadyStarted);
      }
      started := true;
      return Pass;
    }

    /** New blocks are zero. */
    method Grow(n: nat) returns (r: Outcome<Error>)
      requires Valid()
      modifies this
      ensures Valid() && started == old(started) && Wrote() == old(Wrote()) && pinned == old(pinned)
      ensures r == if !old(started) then Fail(NotStarted) else if old(size) + n >= U64_END then Fail(Overflow) else Pass
      ensures Contents() == if r.Pass? then old(Contents()) + seq(n, _ => Zeros(journal.bs)) else old(Contents())
    {
      hide Journal.Valid, Journal.Current, Shown;
      if !started {
        return Fail(NotStarted);
      }
      if size + n >= U64_END {
        return Fail(Overflow);
      }
      Extended(cache, dirty, journal.Current(), db.blocks, journal.bs, size, n);
      size := size + n;
      return Pass;
    }

    /** Reads a block from the journal or the database file. */
    method Load(i: nat) returns (data: Block)
      requires Valid()
      ensures data == Behind(journal.Current(), db.blocks, journal.bs, i)
    {
      hide Journal.Valid, Journal.Current;
      var r := journal.Read(i);
      if r.Some? {
        return r.value;
      }
      return if i < dbSize then db.blocks[i] else Zeros(journal.bs);
    }

    /** Brings a block into memory. */
    method Fetch(i: nat)
      requires Valid()
      modifies this`cache
      ensures Valid() && i in cache && Contents() == old(Contents())
    {
      hide Journal.Valid, Journal.Current;
      if i !in cache {
        var data := Load(i);
        cache := cache[i := data];
      }
    }

    /** Keeps a block in memory until it is unpinned. */
    method Pin(i: nat) returns (r: Outcome<Error>)
      requires Valid()
      modifies this
      ensures Valid() && started == old(started) && Contents() == old(Contents()) && Wrote() == old(Wrote())
      ensures r == if !started then Fail(NotStarted) else if i >= |Contents()| then Fail(OutOfBounds) else if i in old(pinned) then Fail(AlreadyPinned) else Pass
      ensures pinned == if r.Pass? then old(pinned) + {i} else old(pinned)
    {
      hide Journal.Valid, Journal.Current, Coherent, Shown;
      if !started {
        return Fail(NotStarted);
      }
      if i >= size {
        return Fail(OutOfBounds);
      }
      if i in pinned {
        return Fail(AlreadyPinned);
      }
      Fetch(i);
      pinned := pinned + {i};
      return Pass;
    }

    method Unpin(i: nat)
      requires Valid()
      modifies this
      ensures Valid() && started == old(started) && Contents() == old(Contents()) && Wrote() == old(Wrote()) && pinned == old(pinned) - {i}
    {
      hide Journal.Valid, Journal.Current, Coherent, Shown;
      pinned := pinned - {i};
    }

    method ReadBlock(i: nat) returns (r: Result<Block, Error>)
      requires Valid()
      modifies this
      ensures Valid() && started == old(started) && Contents() == old(Contents()) && Wrote() == old(Wrote()) && pinned == old(pinned)
      ensures r == if !started then Failure(NotStarted) else if i >= |Contents()| then Failure(OutOfBounds) else Success(Contents()[i])
    {
      hide Journal.Valid, Journal.Current, Coherent, Behind;
      if !started {
        return Failure(NotStarted);
      }
      if i >= size {
        return Failure(OutOfBounds);
      }
      Fetch(i);
      return Success(cache[i]);
    }

    /** Changes a block in memory. */
    method WriteBlock(i: nat, data: Block) returns (r: Outcome<Error>)
      requires Valid() && |data| == journal.bs
      modifies this
      ensures Valid() && started == old(started) && pinned == old(pinned)
      ensures r == if !started then Fail(NotStarted) else if i >= |old(Contents())| then Fail(OutOfBounds) else Pass
      ensures Contents() == if r.Pass? then old(Contents())[i := data] else old(Contents())
      ensures Wrote() == (old(Wrote()) || r.Pass?)
    {
      hide Journal.Valid, Journal.Current;
      if !started {
        return Fail(NotStarted);
      }
      if i >= size {
        return Fail(OutOfBounds);
      }
      cache, dirty := cache[i := data], dirty + {i};
      return Pass;
    }

    /** Writes a changed block to the journal, which starts its own transaction with the first one. */
    method FlushBlock(i: nat)
      requires Valid() && i in dirty
      modifies this, journal, journal.log
      ensures old(journal.log.seen) <= journal.log.seen
      ensures Valid() && started && journal.inTransaction && journal.history == old(journal.history) && journal.durable == old(journal.durable)
      ensures dirty == old(dirty) - {i} && cache == old(cache) && pinned == old(pinned) && size == old(size) && Contents() == old(Contents())
      ensures StillSafe(old(journal.log.seen), journal.log.seen, journal.header, journal.bs, journal.history, journal.durable)
    {
      hide Journal.Valid, AllSurvive, Written, After, Behind, Shown;
      ghost var current := journal.Current();
      SizeStays();
      if !journal.inTransaction {
        journal.IdleParts();
        journal.Start();
        SizeStays();
      }
      assert journal.Current() == current;
      journal.Write(i, cache[i]);
      SizeStays();
      Flushed(cache, dirty, current, db.blocks, journal.bs, size, i);
      dirty := dirty - {i};
    }

    lemma SizeStays()
      requires journal.Valid()
      ensures journal.databaseSize == After(journal.history).size
    {}

    /** Takes a block out of the cache that is not pinned. */
    method Evict(i: nat)
      requires Valid()
      modifies this, journal, journal.log
      ensures old(journal.log.seen) <= journal.log.seen
      ensures Valid() && started == old(started) && Wrote() == old(Wrote()) && size == old(size) && Contents() == old(Contents())
      ensures Stored() == old(Stored()) && journal.databaseSize == old(journal.databaseSize) && pinned == old(pinned)
      ensures cache.Keys == if i in pinned then old(cache).Keys else old(cache).Keys - {i}
      ensures journal.history == old(journal.history) && journal.durable == old(journal.durable)
      ensures StillSafe(old(journal.log.seen), journal.log.seen, journal.header, journal.bs, journal.history, journal.durable)
    {
      hide Journal.Valid, Journal.Current, AllSurvive, After, Behind, Shown;
      if i in pinned {
        return;
      }
      SizeStays();
      if i in dirty {
        FlushBlock(i);
      }
      SizeStays();
      Dropped(cache, dirty, journal.Current(), db.blocks, journal.bs, size, {i});
      cache := cache - {i};
    }

    /** Writes all changed blocks to the journal. */
    method Flush()
      requires Valid()
      modifies this, journal, journal.log
      ensures old(journal.log.seen) <= journal.log.seen
      ensures Valid() && started == old(started) && dirty == {} && journal.inTransaction == old(Wrote())
      ensures size == old(size) && cache == old(cache) && pinned == old(pinned) && Contents() == old(Contents())
      ensures journal.history == old(journal.history) && journal.durable == old(journal.durable)
      ensures StillSafe(old(journal.log.seen), journal.log.seen, journal.header, journal.bs, journal.history, journal.durable)
    {
      hide TransactionEngine.Valid, Journal.Current, AllSurvive, After, Behind, Shown, TransactionEngine.Contents;
      StartedIfDirty();
      while dirty != {}
        invariant old(journal.log.seen) <= journal.log.seen
        invariant Valid() && started == old(started) && (dirty != {} || journal.inTransaction <==> old(Wrote())) && (dirty != {} ==> started)
        invariant size == old(size) && cache == old(cache) && pinned == old(pinned) && Contents() == old(Contents())
        invariant journal.history == old(journal.history) && journal.durable == old(journal.durable)
        invariant StillSafe(old(journal.log.seen), journal.log.seen, journal.header, journal.bs, journal.history, journal.durable)
        decreases |dirty|
      {
        var i :| i in dirty;
        FlushBlock(i);
      }
    }

    /** Outside of transactions the blocks are those of the files, as many as there are. */
    lemma UnstartedStored()
      requires Valid() && dirty == {} && !journal.inTransaction
      ensures |Stored()| <= |Contents()| && Stored() == Contents()[..|Stored()|]
      ensures Contents() == Stored() <==> |Contents()| == |Stored()|
    {
      hide Journal.Valid, Journal.Current, After;
      AtRest();
    }

    lemma StartedIfDirty()
      requires Valid()
      ensures dirty != {} ==> started
    {}

    /**
    Makes the changes of the running transaction permanent, if it has changed blocks; the size alone is not written
    to the journal.
    */
    method Commit() returns (r: Outcome<Error>)
      requires Valid()
      modifies this, journal, journal.log
      ensures old(journal.log.seen) <= journal.log.seen
      ensures Valid() && Contents() == old(Contents()) && pinned == old(pinned) && (old(Wrote()) ==> old(started))
      ensures r == if !old(started) then Fail(NotStarted) else if pinned != {} then Fail(StillPinned) else Pass
      ensures if r.Pass? then !started && !Wrote() else started == old(started) && Wrote() == old(Wrote())
      ensures Stored() == if r.Pass? && old(Wrote()) then Contents() else old(Stored())
      ensures journal.databaseSize == if r.Pass? && old(Wrote()) then Some(size) else old(journal.databaseSize)
      ensures r.Pass? ==> (Stored() == Contents() <==> old(Wrote()) || |Contents()| == |old(Stored())|)
      ensures old(journal.history) <= journal.history && |journal.history| <= |old(journal.history)| + 1
      ensures AllSurvive(old(journal.log.seen), journal.header, journal.bs, old(journal.history), old(journal.durable)) ==>
                AllSurvive(journal.log.seen, journal.header, journal.bs, journal.history, old(journal.durable))
    {
      hide Journal.Valid, Journal.Current, AllSurvive, After, Behind, Shown, View, Below;
      if !started {
        return Fail(NotStarted);
      }
      if pinned != {} {
        return Fail(StillPinned);
      }
      SizeStays();
      Flush();
      SizeStays();
      if journal.inTransaction {
        ghost var current := journal.Current();
        journal.Commit(size, sync);
        AllBelow(current, size);
        AtRest();
        CleanShown(cache, current, db.blocks, journal.bs, size);
        SameShown(After(journal.history), db.blocks, journal.bs, size);
      }
      started := false;
      UnstartedStored();
      return Pass;
    }

    /** Blocks that the running transaction has not written to the journal are those of the last commit. */
    lemma OthersStay(i: nat)
      requires journal.Valid() && journal.inTransaction && i !in journal.uncommitted
      ensures i in journal.Current() <==> i in After(journal.history).blocks
      ensures i in journal.Current() ==> journal.Current()[i] == After(journal.history).blocks[i]
    {
      hide LogBytes, After, Written, Placed, Tracks, AllSurvive, Located;
      var start := |journal.Committed()| + 1;
      PlacedTracks(journal.uncommitted, journal.writes, journal.bs, start);
      WrittenIs(After(journal.history).blocks, journal.writes, journal.bs, journal.uncommitted, start, i);
    }

    /** Takes all blocks out of the cache that the running transaction has changed, wherever they are. */
    method Discard()
      requires Valid()
      modifies this
      ensures dirty == {} && size == old(size) && dbSize == old(dbSize) && started == old(started) && pinned == old(pinned)
      ensures forall i :: i in cache ==> cache[i] == Behind(After(journal.history).blocks, db.blocks, journal.bs, i)
    {
      hide Journal.Valid, Journal.Current, After;
      cache, dirty := cache - dirty, {};
      if journal.inTransaction {
        cache := cache - journal.uncommitted.Keys;
        forall i | i in cache ensures cache[i] == Behind(After(journal.history).blocks, db.blocks, journal.bs, i) {
          OthersStay(i);
        }
      } else {
        AtRest();
      }
    }

    /** Ends the transaction of the journal, if there is one. */
    method AbortJournal()
      requires journal.Valid()
      modifies journal, journal.log
      ensures old(journal.log.seen) <= journal.log.seen
      ensures journal.Valid() && !journal.inTransaction
      ensures journal.history == old(journal.history) && journal.durable == old(journal.durable) && journal.databaseSize == old(journal.databaseSize)
      ensures StillSafe(old(journal.log.seen), journal.log.seen, journal.header, journal.bs, journal.history, journal.durable)
    {
      hide Journal.Valid, Journal.Current, AllSurvive, After;
      SizeStays();
      if journal.inTransaction {
        journal.Abort();
      }
      SizeStays();
    }

    /** Undoes everything since the last commit in the files. */
    method Rollback() returns (r: Outcome<Error>)
      requires Valid()
      modifies this, journal, journal.log
      ensures old(journal.log.seen) <= journal.log.seen
      ensures Valid() && pinned == old(pinned) && r == if !old(started) then Fail(NotStarted) else if pinned != {} then Fail(StillPinned) else Pass
      ensures if r.Pass? then !started && !Wrote() else started == old(started) && Wrote() == old(Wrote())
      ensures Contents() == (if r.Pass? then Stored() else old(Contents())) && Stored() == old(Stored())
      ensures (old(Wrote()) ==> old(started)) && journal.databaseSize == old(journal.databaseSize)
      ensures journal.history == old(journal.history) && journal.durable == old(journal.durable)
      ensures StillSafe(old(journal.log.seen), journal.log.seen, journal.header, journal.bs, journal.history, journal.durable)
    {
      hide Journal.Valid, Journal.Current, AllSurvive, After, Behind, Shown, View, Coherent;
      if !started {
        return Fail(NotStarted);
      }
      if pinned != {} {
        return Fail(StillPinned);
      }
      Discard();
      AbortJournal();
      AtRest();
      size := if journal.databaseSize.Some? then journal.databaseSize.value else dbSize;
      started := false;
      RolledBack(cache, After(journal.history), db.blocks, journal.bs, size);
      return Pass;
    }

    /** Moves the last commit to the database file; the database does not change, whatever a crash leaves of the two files. */
    method Checkpoint() returns (r: Outcome<Error>, ghost crashes: iset<(seq<byte>, seq<Block>)>)
      requires Valid()
      modifies this, journal, journal.log, db
      ensures Valid() && started == old(started) && Contents() == old(Contents()) && Stored() == old(Stored()) && Wrote() == old(Wrote())
      ensures pinned == old(pinned) && r == if started then Fail(AlreadyStarted)
                   else if old(journal.databaseSize) == None then Pass
                   else if |Stored()| != |Contents()| then Fail(WrongSize)
                   else if |Stored()| * journal.bs >= U64_END then Fail(Overflow)
                   else Pass
      ensures journal.databaseSize == if r.Pass? then None else old(journal.databaseSize)
      ensures r.Pass? && old(journal.databaseSize).Some? ==>
                && (forall d :: d in db.seen ==> (old(journal.log.content), d) in crashes)
                && (forall l :: l in journal.log.seen ==> (l, db.blocks) in crashes)
      ensures r.Fail? || old(journal.databaseSize).None? ==> db.blocks == old(db.blocks) && journal.log.seen <= old(journal.log.seen)
      ensures forall c :: c in crashes ==> SameDatabase(c.0, c.1, journal.header, journal.bs, Stored()) && |c.1| <= |Stored()|
    {
      hide Journal.Valid, Journal.Current, AllSurvive, After, Behind, Shown, View, SameDatabase;
      crashes := iset{};
      if started {
        return Fail(AlreadyStarted), crashes;
      }
      if journal.databaseSize.None? {
        return Pass, crashes;
      }
      AtRest();
      ViewSize(After(journal.history), db.blocks, journal.bs);
      ShownSize(cache, journal.Current(), db.blocks, journal.bs, size);
      if journal.databaseSize.value != size {
        return Fail(WrongSize), crashes;
      }
      ghost var m, file := After(journal.history), db.blocks;
      var ok, changed;
      ok, changed, crashes := journal.Checkpoint(db);
      AtRest();
      if !ok {
        return Fail(Overflow), crashes;
      }
      dbSize := size;
      Moved(cache, m, file, journal.bs, size);
      NothingShown(db.blocks, journal.bs);
      return Pass, crashes;
    }

    /** Whatever a crash leaves of the log, the files have the state of a commit: the last one, if commits are synced. */
    lemma CrashKeeps(log: seq<byte>)
      requires Valid() && log in journal.log.images
      ensures exists i :: journal.durable <= i <= |journal.history| &&
                SameDatabase(log, db.blocks, journal.header, journal.bs, View(After(journal.history[..i]), db.blocks, journal.bs))
      ensures sync ==> SameDatabase(log, db.blocks, journal.header, journal.bs, Stored())
    {
      hide View, After, Restore, LogBytes, Located, Placed, AreTransactions;
      CrashRecovery(log, journal.header, journal.bs, journal.history, journal.durable);
      var i :| journal.durable <= i <= |journal.history| && Restore(log[|journal.header|..], journal.bs, NOTHING).0 == After(journal.history[..i]);
      assert SameDatabase(log, db.blocks, journal.header, journal.bs, View(After(journal.history[..i]), db.blocks, journal.bs));
      assert journal.history[..|journal.history|] == journal.history;
    }

    /** Starts to record what a crash may leave of the log. */
    ghost method Watch()
      requires Valid()
      modifies journal.log`seen
      ensures Valid() && journal.log.seen == journal.log.images
    {
      hide LogBytes, After, Located, Placed, AllSurvive, AreTransactions, AreWrites, Written, Coherent;
      journal.log.Watch();
    }

    lemma SafeNow()
      requires Valid()
      ensures AllSurvive(journal.log.images, journal.header, journal.bs, journal.history, journal.durable)
      ensures sync ==> journal.durable == |journal.history|
    {
      hide LogBytes, After, Located, Placed, AllSurvive, AreTransactions, AreWrites, Written, Coherent;
    }

    /** How large the stored database is. */
    lemma StoredSize()
      requires Valid()
      ensures |db.blocks| <= |Stored()| < U64_END
    {
      hide Journal.Valid, After, Coherent, View;
      SizeStays();
      ViewSize(After(journal.history), db.blocks, journal.bs);
    }
  }

  /** What could be left of the log since then is as good as before. */
  ghost predicate StillSafe(seen: iset<seq<byte>>, seen': iset<seq<byte>>, header: seq<byte>, bs: nat, history: seq<Transaction>, durable: nat) {
    AllSurvive(seen, header, bs, history, durable) ==> AllSurvive(seen', header, bs, history, durable)
  }

  lemma SameShown(m: Image, file: seq<Block>, bs: nat, size: nat)
    requires size == if m.size.Some? then m.size.value else |file|
    ensures Shown(map[], m.blocks, file, bs, size) == View(m, file, bs)
  {}

  lemma Extended(cache: map<nat, Block>, dirty: set<nat>, current: map<nat, Block>, file: seq<Block>, bs: nat, size: nat, n: nat)
    requires Coherent(cache, dirty, current, file, bs, size)
    ensures Shown(cache, current, file, bs, size + n) == Shown(cache, current, file, bs, size) + seq(n, _ => Zeros(bs))
    ensures Coherent(cache, dirty, current, file, bs, size + n)
  {
  }

  lemma Flushed(cache: map<nat, Block>, dirty: set<nat>, current: map<nat, Block>, file: seq<Block>, bs: nat, size: nat, i: nat)
    requires Coherent(cache, dirty, current, file, bs, size) && i in dirty
    ensures Coherent(cache, dirty - {i}, current[i := cache[i]], file, bs, size)
    ensures Shown(cache, current[i := cache[i]], file, bs, size) == Shown(cache, current, file, bs, size)
  {}

  lemma Dropped(cache: map<nat, Block>, dirty: set<nat>, current: map<nat, Block>, file: seq<Block>, bs: nat, size: nat, gone: set<nat>)
    requires Coherent(cache, dirty, current, file, bs, size) && gone !! dirty
    ensures Coherent(cache - gone, dirty, current, file, bs, size)
    ensures Shown(cache - gone, current, file, bs, size) == Shown(cache, current, file, bs, size)
  {}

  lemma AllBelow(current: map<nat, Block>, size: nat)
    requires forall i :: i in current ==> i < size
    ensures Below(current, size) == current
  {}

  /** Without dirty blocks the cache makes no difference. */
  lemma CleanShown(cache: map<nat, Block>, current: map<nat, Block>, file: seq<Block>, bs: nat, size: nat)
    requires Coherent(cache, {}, current, file, bs, size)
    ensures Shown(cache, current, file, bs, size) == Shown(map[], current, file, bs, size)
  {}

  lemma RolledBack(cache: map<nat, Block>, m: Image, file: seq<Block>, bs: nat, size: nat)
    requires forall i :: i in cache ==> cache[i] == Behind(m.blocks, file, bs, i)
    requires if m.size.None? then m.blocks == map[] && size == |file| else size == m.size.value && |file| <= size && forall i :: i in m.blocks ==> i < size
    ensures Coherent(cache, {}, m.blocks, file, bs, size) && Shown(cache, m.blocks, file, bs, size) == View(m, file, bs)
  {}

  lemma ShownSize(cache: map<nat, Block>, current: map<nat, Block>, file: seq<Block>, bs: nat, size: nat)
    ensures |Shown(cache, current, file, bs, size)| == size
  {}

  /** Once the blocks are in the file, they are the same without the journal. */
  lemma Moved(cache: map<nat, Block>, m: Image, file: seq<Block>, bs: nat, size: nat)
    requires m.size == Some(size) && Coherent(cache, {}, m.blocks, file, bs, size)
    ensures Coherent(cache, {}, map[], View(m, file, bs), bs, size)
    ensures Shown(cache, map[], View(m, file, bs), bs, size) == Shown(cache, m.blocks, file, bs, size)
  {}

  lemma NothingShown(file: seq<Block>, bs: nat)
    ensures View(NOTHING, file, bs) == file
  {}

  /** Two files that have a database together and can be opened. */
  ghost predicate Recoverable(log: seq<byte>, file: seq<Block>, header: seq<byte>, bs: nat, view: seq<Block>) {
    SameDatabase(log, file, header, bs, view) && |file| <= |view| < U64_END
  }

  /** A log that a crash left after at most one more commit. */
  lemma {:induction false} BeforeOrAfter(log: seq<byte>, header: seq<byte>, bs: nat, before: seq<Transaction>, history: seq<Transaction>, file: seq<Block>)
    requires Survives(log, header, bs, history, |before|) && before <= history && |history| <= |before| + 1
    ensures SameDatabase(log, file, header, bs, View(After(before), file, bs)) || SameDatabase(log, file, header, bs, View(After(history), file, bs))
  {
    hide Survives, View, After, Restore;
    CrashRecovery(log, header, bs, history, |before|);
    var i :| |before| <= i <= |history| && Restore(log[|header|..], bs, NOTHING).0 == After(history[..i]);
    assert history[..|before|] == before && history[..|history|] == history;
  }
}
