/**
Every run of the engine with transactions: it behaves like two sequences of blocks, one that is stored and one that the
running transaction sees.
*/
module TransactionRuns {
  import opened Blocks
  import BigEndian
  import JournalFiles
  import JournalLog
  import opened Journals
  import opened TransactionEngines
  import opened Wrappers

  datatype Operation =
    | Begin
    | Grow(n: nat)
    | Read(i: nat)
    | Write(i: nat, data: Block)
    | Pin(i: nat)
    | Unpin(i: nat)
    | Evict(i: nat)
    | Commit
    | Rollback
    | Checkpoint

  datatype Answer = Done | Data(block: Block) | Failed(error: Error)

  /** `wrote`: the running transaction has changed a block; `logged`: there are commits since the last checkpoint. */
  datatype State = State(stored: seq<Block>, contents: seq<Block>, started: bool, wrote: bool, logged: bool, pinned: set<nat>)

  /** What an operation answers. */
  function Reply(s: State, op: Operation, bs: nat): Answer {
    match op
    case Begin => if s.started then Failed(AlreadyStarted) else Done
    case Grow(n) => if !s.started then Failed(NotStarted) else if |s.contents| + n >= JournalLog.U64_END then Failed(Overflow) else Done
    case Read(i) => if !s.started then Failed(NotStarted) else if i >= |s.contents| then Failed(OutOfBounds) else Data(s.contents[i])
    case Write(i, _) => if !s.started then Failed(NotStarted) else if i >= |s.contents| then Failed(OutOfBounds) else Done
    case Pin(i) =>
      if !s.started then Failed(NotStarted) else if i >= |s.contents| then Failed(OutOfBounds) else if i in s.pinned then Failed(AlreadyPinned) else Done
    case Unpin(_) => Done
    case Evict(_) => Done
    case Commit => if !s.started then Failed(NotStarted) else if s.pinned != {} then Failed(StillPinned) else Done
    case Rollback => if !s.started then Failed(NotStarted) else if s.pinned != {} then Failed(StillPinned) else Done
    case Checkpoint =>
      if s.started then Failed(AlreadyStarted)
      else if !s.logged then Done
      else if |s.stored| != |s.contents| then Failed(WrongSize)
      else if |s.stored| * bs >= JournalLog.U64_END then Failed(Overflow)
      else Done
  }

  /** What a successful operation does. */
  function Effect(s: State, op: Operation, bs: nat): State {
    match op
    case Begin => s.(started := true)
    case Grow(n) => s.(contents := s.contents + seq(n, _ => Zeros(bs)))
    case Write(i, data) => if i < |s.contents| then s.(contents := s.contents[i := data], wrote := true) else s
    case Pin(i) => s.(pinned := s.pinned + {i})
    case Unpin(i) => s.(pinned := s.pinned - {i})
    case Commit => if s.wrote then State(s.contents, s.contents, false, false, true, {}) else s.(started := false)
    case Rollback => State(s.stored, s.stored, false, false, s.logged, {})
    case Checkpoint => s.(logged := false)
    case _ => s
  }

  function Step(s: State, op: Operation, bs: nat): State {
    if Reply(s, op, bs).Failed? then s else Effect(s, op, bs)
  }

  function Run(s: State, ops: seq<Operation>, bs: nat): State {
    if ops == [] then s else Step(Run(s, ops[..|ops| - 1], bs), ops[|ops| - 1], bs)
  }

  function Replies(s: State, ops: seq<Operation>, bs: nat): seq<Answer> {
    if ops == [] then []
    else Replies(s, ops[..|ops| - 1], bs) + [Reply(Run(s, ops[..|ops| - 1], bs), ops[|ops| - 1], bs)]
  }

  /** The engine as a state. */
  ghost function StateOf(e: TransactionEngine): State
    reads e, e.journal, e.db
  {
    State(e.Stored(), e.Contents(), e.started, e.Wrote(), e.journal.databaseSize.Some?, e.pinned)
  }

  /** Blocks in writes have the right size. */
  ghost predicate Sized(op: Operation, bs: nat) {
    op.Write? ==> |op.data| == bs
  }

  /** Any operation but a checkpoint. The log may have one more commit, and whatever a crash leaves of it has all or all but the last. */
  method PerformLogged(e: TransactionEngine, op: Operation) returns (answer: Answer)
    requires e.Valid() && Sized(op, e.journal.bs) && !op.Checkpoint?
    modifies e, e.journal, e.journal.log
    ensures e.Valid() && answer == Reply(old(StateOf(e)), op, e.journal.bs) && StateOf(e) == Step(old(StateOf(e)), op, e.journal.bs)
    ensures old(e.journal.log.seen) <= e.journal.log.seen
    ensures old(e.journal.history) <= e.journal.history && |e.journal.history| <= |old(e.journal.history)| + 1
    ensures AllSurvive(old(e.journal.log.seen), e.journal.header, e.journal.bs, old(e.journal.history), old(e.journal.durable)) ==>
              AllSurvive(e.journal.log.seen, e.journal.header, e.journal.bs, e.journal.history, old(e.journal.durable))
  {
    hide TransactionEngine.Valid, TransactionEngine.Stored, TransactionEngine.Contents, TransactionEngine.Wrote, AllSurvive, SameDatabase;
    match op
    case Begin => var r := e.Begin(); answer := AnswerOf(r);
    case Grow(n) => var r := e.Grow(n); answer := AnswerOf(r);
    case Read(i) => var r := e.ReadBlock(i); answer := if r.Success? then Data(r.value) else Failed(r.error);
    case Write(i, data) => var r := e.WriteBlock(i, data); answer := AnswerOf(r);
    case Pin(i) => var r := e.Pin(i); answer := AnswerOf(r);
    case Unpin(i) => e.Unpin(i); answer := Done;
    case Evict(i) => e.Evict(i); answer := Done;
    case Commit => var r := e.Commit(); answer := AnswerOf(r);
    case Rollback => var r := e.Rollback(); answer := AnswerOf(r);
  }

  /**
  An operation, and the pairs of files that a crash can leave between its start and its end. If commits are synced,
  each of them has what was stored before the operation or what is stored after it.
  */
  method Perform(e: TransactionEngine, op: Operation) returns (answer: Answer, ghost crashes: iset<(seq<byte>, seq<Block>)>)
    requires e.Valid() && Sized(op, e.journal.bs)
    modifies e, e.journal, e.journal.log, e.db
    ensures e.Valid() && answer == Reply(old(StateOf(e)), op, e.journal.bs) && StateOf(e) == Step(old(StateOf(e)), op, e.journal.bs)
    ensures forall log :: log in old(e.journal.log.images) ==> (log, old(e.db.blocks)) in crashes
    ensures forall log :: log in e.journal.log.seen ==> (log, e.db.blocks) in crashes
    ensures op.Checkpoint? && answer.Done? && old(StateOf(e).logged) ==> forall file :: file in e.db.seen ==> (old(e.journal.log.content), file) in crashes
    ensures e.sync ==> AllHave(crashes, e.journal.header, e.journal.bs, old(StateOf(e)).stored, StateOf(e).stored)
  {
    hide TransactionEngine.Valid, StateOf, AllSurvive, SameDatabase, Step, Reply;
    e.Watch();
    e.SafeNow();
    ghost var images, file, before := e.journal.log.images, e.db.blocks, e.journal.history;
    StoredIs(e);
    e.StoredSize();
    if op.Checkpoint? {
      answer, crashes := PerformCheckpoint(e);
    } else {
      answer := PerformLogged(e, op);
      StoredIs(e);
      e.StoredSize();
      crashes := iset log | log in e.journal.log.seen :: (log, file);
      forall log | log in e.journal.log.seen && e.sync
        ensures Recoverable(log, file, e.journal.header, e.journal.bs, old(StateOf(e)).stored) ||
                Recoverable(log, file, e.journal.header, e.journal.bs, StateOf(e).stored) {
        SurvivesAll(e.journal.log.seen, e.journal.header, e.journal.bs, e.journal.history, |before|, log);
        BeforeOrAfter(log, e.journal.header, e.journal.bs, before, e.journal.history, file);
      }
    }
  }

  /** A checkpoint, with all the pairs of files that a crash can leave. */
  method PerformCheckpoint(e: TransactionEngine) returns (answer: Answer, ghost crashes: iset<(seq<byte>, seq<Block>)>)
    requires e.Valid() && e.journal.log.seen == e.journal.log.images
    modifies e, e.journal, e.journal.log, e.db
    ensures e.Valid() && answer == Reply(old(StateOf(e)), Checkpoint, e.journal.bs) && StateOf(e) == Step(old(StateOf(e)), Checkpoint, e.journal.bs)
    ensures StateOf(e).stored == old(StateOf(e)).stored
    ensures forall log :: log in old(e.journal.log.images) ==> (log, old(e.db.blocks)) in crashes
    ensures forall log :: log in e.journal.log.seen ==> (log, e.db.blocks) in crashes
    ensures answer.Done? && old(StateOf(e).logged) ==> forall file :: file in e.db.seen ==> (old(e.journal.log.content), file) in crashes
    ensures e.sync ==> AllHave(crashes, e.journal.header, e.journal.bs, StateOf(e).stored, StateOf(e).stored)
  {
    hide TransactionEngine.Valid, TransactionEngine.Stored, TransactionEngine.Contents, TransactionEngine.Wrote, AllSurvive, SameDatabase;
    ghost var file, v := e.db.blocks, e.Stored();
    ghost var first := iset log | log in e.journal.log.images :: (log, file);
    e.StoredSize();
    forall log | log in e.journal.log.images ensures e.sync ==> SameDatabase(log, file, e.journal.header, e.journal.bs, v) {
      e.CrashKeeps(log);
    }
    ghost var during;
    var r;
    r, during := e.Checkpoint();
    answer, crashes := AnswerOf(r), first + during;
  }

  /** Each pair of files has one of two databases. */
  ghost predicate AllHave(files: iset<(seq<byte>, seq<Block>)>, header: seq<byte>, bs: nat, v: seq<Block>, w: seq<Block>) {
    forall c :: c in files ==> Recoverable(c.0, c.1, header, bs, v) || Recoverable(c.0, c.1, header, bs, w)
  }

  function AnswerOf(r: Outcome<Error>): Answer {
    if r.Pass? then Done else Failed(r.error)
  }

  /** All answers of a run are those of the two sequences, and a crash leaves what is stored. */
  method Execute(e: TransactionEngine, ops: seq<Operation>) returns (answers: seq<Answer>)
    requires e.Valid() && forall k :: 0 <= k < |ops| ==> Sized(ops[k], e.journal.bs)
    modifies e, e.journal, e.journal.log, e.db
    ensures e.Valid() && answers == Replies(old(StateOf(e)), ops, e.journal.bs) && StateOf(e) == Run(old(StateOf(e)), ops, e.journal.bs)
    ensures e.sync ==>
              forall log :: log in e.journal.log.images ==>
                SameDatabase(log, e.db.blocks, e.journal.header, e.journal.bs, Run(old(StateOf(e)), ops, e.journal.bs).stored)
  {
    hide TransactionEngine.Valid, StateOf, SameDatabase, Step, Reply;
    answers := [];
    assert ops[..0] == [];
    for n := 0 to |ops|
      invariant e.Valid() && StateOf(e) == Run(old(StateOf(e)), ops[..n], e.journal.bs)
      invariant answers == Replies(old(StateOf(e)), ops[..n], e.journal.bs)
    {
      assert ops[..n + 1][..n] == ops[..n];
      var answer, _ := Perform(e, ops[n]);
      answers := answers + [answer];
    }
    assert ops[..|ops|] == ops;
    forall log | log in e.journal.log.images ensures e.sync ==> SameDatabase(log, e.db.blocks, e.journal.header, e.journal.bs, StateOf(e).stored) {
      e.CrashKeeps(log);
      StoredIs(e);
    }
  }

  lemma SurvivesAll(images: iset<seq<byte>>, header: seq<byte>, bs: nat, history: seq<JournalLog.Transaction>, durable: nat, log: seq<byte>)
    requires AllSurvive(images, header, bs, history, durable) && log in images
    ensures Survives(log, header, bs, history, durable)
  {}

  lemma StoredIs(e: TransactionEngine)
    ensures StateOf(e).stored == e.Stored()
  {}

  // ---- Crashes.

  /** The state after opening a database: nothing is running. */
  predicate Opened(s: State, view: seq<Block>) {
    s.stored == view && s.contents == view && !s.started && !s.wrote && s.pinned == {}
  }

  /** Opens the files that a crash left behind. */
  method Reopen(log: seq<byte>, file: seq<Block>, bs: nat, capacity: nat, sync: bool) returns (r: Option<TransactionEngine>)
    requires bs < BigEndian.Pow256(4) && 0 < capacity
    ensures r.Some? ==> var e := r.value; fresh(e) && fresh(e.journal) && fresh(e.journal.log) && fresh(e.db)
    ensures r.Some? ==> r.value.Valid() && r.value.journal.bs == bs && r.value.journal.header == JournalLog.Header(bs) && r.value.sync == sync
    ensures r.Some? ==> r.value.journal.capacity == capacity
    ensures forall view :: Recoverable(log, file, JournalLog.Header(bs), bs, view) ==> r.Some? && Opened(StateOf(r.value), view)
  {
    hide TransactionEngine.Valid, Journal.Valid, JournalLog.Header, JournalLog.LogBytes, JournalLog.Recovers, JournalLog.After, JournalLog.Restore, JournalLog.View;
    var f := new JournalFiles.LogFile(log);
    var j := new Journal(f, bs, capacity);
    ghost var header := j.header;
    assert log == [] ==> !(header <= log);
    var ok := j.Open();
    if !ok {
      return None;
    }
    j.SizeKnown();
    if header <= log {
      JournalLog.RecoversOk(log[|header|..], bs, j.history);
    }
    JournalLog.ViewSize(JournalLog.After(j.history), file, bs);
    if |file| >= JournalLog.U64_END || (j.databaseSize.Some? && j.databaseSize.value < |file|) {
      return None;
    }
    var db := new JournalFiles.DatabaseFile(bs, file);
    var e := new TransactionEngine(j, db, sync);
    return Some(e);
  }

  /** Operations, one during which everything stops, and the files that are found afterwards. */
  datatype Life = Life(ops: seq<Operation>, last: Operation, log: seq<byte>, file: seq<Block>)

  ghost predicate LifeSized(life: Life, bs: nat) {
    Sized(life.last, bs) && forall k :: 0 <= k < |life.ops| ==> Sized(life.ops[k], bs)
  }

  /** What a crash during `op` makes of a database: the interrupted operation has stored everything or nothing. */
  predicate Reborn(s: State, op: Operation, bs: nat, s': State) {
    Opened(s', s.stored) || Opened(s', Step(s, op, bs).stored)
  }

  /** Performs operations until a crash in the middle of one, and opens the files that it left. */
  method LiveOnce(e: TransactionEngine, life: Life) returns (answers: seq<Answer>, next: Option<TransactionEngine>, ghost crashes: iset<(seq<byte>, seq<Block>)>)
    requires e.Valid() && e.sync && LifeSized(life, e.journal.bs) && e.journal.bs < BigEndian.Pow256(4) && e.journal.header == JournalLog.Header(e.journal.bs)
    requires 0 < e.journal.capacity
    modifies e, e.journal, e.journal.log, e.db
    ensures e.Valid() && answers == Replies(old(StateOf(e)), life.ops, e.journal.bs)
    ensures forall log :: log in e.journal.log.seen ==> (log, e.db.blocks) in crashes
    ensures next.Some? ==> var n := next.value; fresh(n) && fresh(n.journal) && fresh(n.journal.log) && fresh(n.db)
    ensures next.Some? ==> next.value.Valid() && next.value.sync && next.value.journal.bs == e.journal.bs
    ensures next.Some? ==> next.value.journal.header == e.journal.header && next.value.journal.capacity == e.journal.capacity
    ensures (life.log, life.file) in crashes ==>
              next.Some? && Reborn(Run(old(StateOf(e)), life.ops, e.journal.bs), life.last, e.journal.bs, StateOf(next.value))
  {
    hide TransactionEngine.Valid, StateOf, SameDatabase, Step, Reply, Opened, Recoverable, JournalLog.Header;
    answers := Execute(e, life.ops);
    ghost var s := StateOf(e);
    var answer;
    answer, crashes := Perform(e, life.last);
    next := Reopen(life.log, life.file, e.journal.bs, e.journal.capacity, true);
  }

  /**
  Any number of crashes, each in the middle of some operation: if the files that are found are always ones that
  the crash can leave, every life goes on with what the last one had stored, with or without the interrupted commit.
  */
  method Survive(e: TransactionEngine, lives: seq<Life>)
    returns (r: Option<TransactionEngine>, ghost trace: seq<State>, ghost crashes: seq<iset<(seq<byte>, seq<Block>)>>)
    requires e.Valid() && e.sync && e.journal.bs < BigEndian.Pow256(4) && e.journal.header == JournalLog.Header(e.journal.bs) && 0 < e.journal.capacity
    requires forall k :: 0 <= k < |lives| ==> LifeSized(lives[k], e.journal.bs)
    modifies e, e.journal, e.journal.log, e.db
    ensures |crashes| <= |lives| && (r.Some? ==> r.value.Valid() && r.value.journal.bs == e.journal.bs)
    ensures Possible(lives, crashes) ==>
              && r.Some? && |crashes| == |lives| && |trace| == |lives| + 1 && trace[0] == old(StateOf(e)) && trace[|lives|] == StateOf(r.value)
              && forall k :: 0 <= k < |lives| ==> Reborn(Run(trace[k], lives[k].ops, e.journal.bs), lives[k].last, e.journal.bs, trace[k + 1])
    decreases |lives|
  {
    hide TransactionEngine.Valid, StateOf, Reborn, Run, JournalLog.Header, LifeSized;
    trace, crashes := [StateOf(e)], [];
    if lives == [] {
      return Some(e), trace, crashes;
    }
    var answers, next, found := LiveOnce(e, lives[0]);
    if next.None? {
      assert [found][0] == found;
      return None, trace, [found];
    }
    ghost var states, more;
    r, states, more := Survive(next.value, lives[1..]);
    crashes := [found] + more;
    if Possible(lives, crashes) {
      PossibleRest(lives, found, more);
    }
    trace := trace + states;
  }

  /** The files that are found after each crash are among those that it can leave. */
  ghost predicate Possible(lives: seq<Life>, crashes: seq<iset<(seq<byte>, seq<Block>)>>) {
    forall k :: 0 <= k < |crashes| && k < |lives| ==> (lives[k].log, lives[k].file) in crashes[k]
  }

  lemma PossibleRest(lives: seq<Life>, found: iset<(seq<byte>, seq<Block>)>, more: seq<iset<(seq<byte>, seq<Block>)>>)
    requires lives != [] && Possible(lives, [found] + more)
    ensures (lives[0].log, lives[0].file) in found && Possible(lives[1..], more)
  {
    var all := [found] + more;
    assert all[0] == found;
    forall k | 0 <= k < |more| && k < |lives[1..]| ensures (lives[1..][k].log, lives[1..][k].file) in more[k] {
      assert all[k + 1] == more[k] && lives[1..][k] == lives[k + 1];
    }
  }

  // ---- What a commit stores.

  /** Without changed blocks, the running transaction sees what is stored and maybe more blocks. */
  predicate Consistent(s: State) {
    |s.stored| <= |s.contents| && (s.wrote || s.pinned != {} ==> s.started) && (!s.wrote ==> s.stored <= s.contents)
  }

  lemma StepKeeps(s: State, op: Operation, bs: nat)
    requires Consistent(s)
    ensures Consistent(Step(s, op, bs))
  {}

  lemma {:induction false} RunKeeps(s: State, ops: seq<Operation>, bs: nat)
    requires Consistent(s)
    ensures Consistent(Run(s, ops, bs))
  {
    hide Step, Consistent;
    if ops != [] {
      RunKeeps(s, ops[..|ops| - 1], bs);
      StepKeeps(Run(s, ops[..|ops| - 1], bs), ops[|ops| - 1], bs);
    }
  }

  /** A commit stores what the transaction sees exactly if the transaction has changed a block or the size is the stored one. */
  lemma {:induction false} StoredByCommit(s: State, ops: seq<Operation>, bs: nat)
    requires Consistent(s) && Reply(Run(s, ops, bs), Commit, bs).Done?
    ensures var t := Run(s, ops, bs); Step(t, Commit, bs).stored == t.contents <==> t.wrote || |t.contents| == |t.stored|
  {
    hide Run;
    RunKeeps(s, ops, bs);
  }

  /** New blocks that nobody wrote to: every operation succeeds, and yet a rollback later on takes the committed block away. */
  lemma GrowthIsLost(bs: nat)
    ensures var s := State([], [], false, false, false, {});
            var ops := [Begin, Grow(1), Commit, Begin, Rollback];
            && Run(s, ops[..3], bs).contents == [Zeros(bs)] && Run(s, ops, bs).contents == [] && Run(s, ops[..3], bs).stored == []
            && Replies(s, ops, bs) == [Done, Done, Done, Done, Done]
  {
    hide Zeros, Replies, Run;
    var s := State([], [], false, false, false, {});
    var ops := [Begin, Grow(1), Commit, Begin, Rollback];
    var z := [] + seq(1, _ => Zeros(bs));
    assert z == [Zeros(bs)];
    Unfold(s, ops, bs, 0);
    Unfold(s, ops, bs, 1);
    Unfold(s, ops, bs, 2);
    Unfold(s, ops, bs, 3);
    Unfold(s, ops, bs, 4);
    Unfold(s, ops, bs, 5);
    assert ops[..5] == ops;
  }

  lemma Unfold(s: State, ops: seq<Operation>, bs: nat, n: nat)
    requires n <= |ops|
    ensures n == 0 ==> Run(s, ops[..n], bs) == s && Replies(s, ops[..n], bs) == []
    ensures n > 0 ==>
              var t := Run(s, ops[..n - 1], bs);
              Run(s, ops[..n], bs) == Step(t, ops[n - 1], bs) && Replies(s, ops[..n], bs) == Replies(s, ops[..n - 1], bs) + [Reply(t, ops[n - 1], bs)]
  {
    hide Step, Reply;
    if n > 0 {
      assert ops[..n][..n - 1] == ops[..n - 1];
    }
  }
}
