/**
The scan of a journal for the transactions in it.
*/
module JournalScan {
  import opened Blocks
  import opened JournalIndex
  import opened JournalLog
  import opened Wrappers

  // ---- Inside a transaction.

  /** `whole` is what a scan finds, if it has found `ws` in `n` bytes and finds `rest` behind them. */
  ghost predicate Continues(whole: Scan, ws: seq<Record>, rest: Scan, n: nat) {
    if rest.Stop? then whole.Stop? else whole == End(ws + rest.writes, rest.last, n + rest.length)
  }

  /** The scan of the transaction that starts at `from` has come to `at`, behind `ws`. */
  ghost predicate Inside(s: seq<byte>, from: nat, at: nat, bs: nat, ws: seq<Record>)
    requires from <= at <= |s| && AreWrites(ws, bs)
  {
    s[from..at] == Bytes(Begin, bs) + AllBytes(ws, bs) && Continues(Next(s[from..], bs), ws, Body(s[at..], bs), at - from)
  }

  lemma InsideFirst(s: seq<byte>, from: nat, bs: nat)
    requires from <= |s| && Read(s[from..], bs) == Some(Begin)
    ensures from < |s| && AreWrites([], bs) && Inside(s, from, from + 1, bs, [])
  {
    hide Body;
    var rest := Body(s[from + 1..], bs);
    assert s[from..][1..] == s[from + 1..] && s[from..from + 1] == [s[from]];
    if rest.End? {
      assert [] + rest.writes == rest.writes;
    }
  }

  lemma {:induction false} BodyWrite(s: seq<byte>, bs: nat, w: Record)
    requires Read(s, bs) == Some(w) && w.Write?
    ensures var rest := Body(s[SizeOf(w, bs)..], bs); Body(s, bs) == if rest.Stop? then Stop else End([w] + rest.writes, rest.last, SizeOf(w, bs) + rest.length)
  {
    hide Read;
  }

  lemma ContinuesWrite(whole: Scan, ws: seq<Record>, w: Record, rest: Scan, n: nat, size: nat)
    requires Continues(whole, ws, if rest.Stop? then Stop else End([w] + rest.writes, rest.last, size + rest.length), n)
    ensures Continues(whole, ws + [w], rest, n + size)
  {
    if rest.End? {
      assert ws + ([w] + rest.writes) == ws + [w] + rest.writes;
    }
  }

  lemma {:induction false} InsideMore(s: seq<byte>, from: nat, at: nat, bs: nat, ws: seq<Record>, w: Record)
    requires from <= at <= |s| && AreWrites(ws, bs) && Inside(s, from, at, bs, ws) && Read(s[at..], bs) == Some(w) && w.Write?
    ensures at + SizeOf(w, bs) <= |s| && AreWrites(ws + [w], bs) && Inside(s, from, at + SizeOf(w, bs), bs, ws + [w])
    ensures at == from + 1 + |AllBytes(ws, bs)|
  {
    hide Read, Body, Next, AllBytes, Bytes, Continues;
    var n := SizeOf(w, bs);
    ReadWhole(s[at..], bs);
    AllBytesLast(ws, w, bs);
    BodyWrite(s[at..], bs, w);
    assert s[at..][n..] == s[at + n..];
    ContinuesWrite(Next(s[from..], bs), ws, w, Body(s[at + n..], bs), at - from, n);
    Joined(s, from, at, n, Bytes(w, bs));
    assert Bytes(Begin, bs) + AllBytes(ws, bs) + Bytes(w, bs) == Bytes(Begin, bs) + (AllBytes(ws, bs) + Bytes(w, bs));
  }

  lemma Joined(s: seq<byte>, from: nat, at: nat, n: nat, b: seq<byte>)
    requires from <= at <= |s| && at + n <= |s| && |b| == n && s[at..] == b + s[at..][n..]
    ensures s[from..at + n] == s[from..at] + b
  {
    assert s[at..at + n] == s[at..][..n] == b;
  }

  lemma {:induction false} InsideLast(s: seq<byte>, from: nat, at: nat, bs: nat, ws: seq<Record>, last: Record)
    requires from <= at <= |s| && AreWrites(ws, bs) && Inside(s, from, at, bs, ws) && Read(s[at..], bs) == Some(last) && (last.Commit? || last.Abort?)
    ensures var n := SizeOf(last, bs);
            && at + n <= |s| && IsTransaction(Transaction(ws, last), bs) && Next(s[from..], bs).End?
            && s[from..at + n] == TransactionBytes(Transaction(ws, last), bs)
  {
    hide Read, Next, AllBytes, Bytes;
    var n := SizeOf(last, bs);
    ReadWhole(s[at..], bs);
    Joined(s, from, at, n, Bytes(last, bs));
  }

  /** The last write of a block is where it is. */
  lemma {:induction false} TracksMore(positions: map<nat, nat>, ws: seq<Record>, bs: nat, start: nat, w: Record)
    requires AreWrites(ws, bs) && Tracks(positions, ws, bs, start) && w.Write? && Fits(w, bs)
    ensures AreWrites(ws + [w], bs) && Tracks(positions[w.index := start + |AllBytes(ws, bs)| + 9], ws + [w], bs, start)
  {
    hide AllBytes, Fits;
    var ws', p := ws + [w], positions[w.index := start + |AllBytes(ws, bs)| + 9];
    AllBytesLast(ws, w, bs);
    assert ws'[..|ws|] == ws;
    forall i | i in p ensures LastAt(p[i], ws', bs, start, i) {
      if i == w.index {
        assert ws'[|ws|].index == i && p[i] == start + DataAt(ws', bs, |ws|);
      } else {
        LastKept(positions[i], ws, bs, start, w, i);
      }
    }
  }

  lemma LastKept(at: nat, ws: seq<Record>, bs: nat, start: nat, w: Record, i: nat)
    requires AreWrites(ws, bs) && w.Write? && Fits(w, bs) && w.index != i && LastAt(at, ws, bs, start, i)
    ensures AreWrites(ws + [w], bs) && LastAt(at, ws + [w], bs, start, i)
  {
    hide DataAt, Fits;
    var k :| 0 <= k < |ws| && ws[k].index == i && at == start + DataAt(ws, bs, k) && forall j :: k < j < |ws| ==> ws[j].index != i;
    DataAtMore(ws, bs, w, k);
    assert (ws + [w])[k].index == i;
  }

  // ---- The scan.

  datatype Found = Broken | Found(last: Record, positions: map<nat, nat>, next: nat)

  /** Reads the records of the transaction that starts at `from`, up to its end; there may be no complete one. */
  method ScanTransaction(s: seq<byte>, from: nat, bs: nat) returns (r: Found, ghost ws: seq<Record>)
    requires from <= |s|
    ensures r.Broken? <==> Next(s[from..], bs).Stop?
    ensures r.Found? ==>
              && from < r.next <= |s| && IsTransaction(Transaction(ws, r.last), bs) && Tracks(r.positions, ws, bs, from + 1)
              && s[from..r.next] == TransactionBytes(Transaction(ws, r.last), bs)
  {
    hide Read, AllBytes, Bytes, Tracks, Next, Inside, TransactionBytes;
    var at, running := from, false;
    var positions: map<nat, nat> := map[];
    ws := [];
    NoBytes(bs);
    while true
      invariant from <= at <= |s| && AreWrites(ws, bs)
      invariant if running then Inside(s, from, at, bs, ws) && Tracks(positions, ws, bs, from + 1) else at == from && ws == [] && positions == map[]
      decreases |s| - at
    {
      var record := Read(s[at..], bs);
      if !running {
        if record != Some(Begin) {
          NoBegin(s[at..], bs);
          return Broken, ws;
        }
        InsideFirst(s, from, bs);
        TracksNothing(bs, from + 1);
        running, at := true, at + 1;
      } else if record.None? || record.value.Begin? {
        InsideBroken(s, from, at, bs, ws);
        return Broken, ws;
      } else if record.value.Write? {
        InsideMore(s, from, at, bs, ws, record.value);
        TracksMore(positions, ws, bs, from + 1, record.value);
        positions := positions[record.value.index := at + 9];
        ws, at := ws + [record.value], at + 9 + bs;
      } else {
        InsideLast(s, from, at, bs, ws, record.value);
        return Found(record.value, positions, at + SizeOf(record.value, bs)), ws;
      }
    }
  }

  lemma NoBegin(s: seq<byte>, bs: nat)
    requires Read(s, bs) != Some(Begin)
    ensures Next(s, bs).Stop?
  {}

  lemma TracksNothing(bs: nat, start: nat)
    ensures AreWrites([], bs) && Tracks(map[], [], bs, start)
  {}

  lemma InsideBroken(s: seq<byte>, from: nat, at: nat, bs: nat, ws: seq<Record>)
    requires from <= at <= |s| && AreWrites(ws, bs) && Inside(s, from, at, bs, ws)
    requires var r := Read(s[at..], bs); r.None? || r.value.Begin?
    ensures Next(s[from..], bs).Stop?
  {
    hide Read, AllBytes, Bytes, Next;
  }

  // ---- What is found.

  /** A log has one list of transactions. */
  lemma {:induction false} RecoversOne(s: seq<byte>, bs: nat, ts: seq<Transaction>, us: seq<Transaction>)
    requires Recovers(s, bs, ts) && Recovers(s, bs, us)
    ensures ts == us
    decreases |ts|
  {
    hide LogBytes, Next, TransactionBytes, IsTransaction;
    var a :| Next(a, bs).Stop? && s == LogBytes(ts, bs) + a;
    var b :| Next(b, bs).Stop? && s == LogBytes(us, bs) + b;
    if ts != [] || us != [] {
      FirstFound(s, bs, ts, a);
      FirstFound(s, bs, us, b);
      assert ts[0] == Transaction(ts[0].writes, ts[0].last) && us[0] == Transaction(us[0].writes, us[0].last);
      RecoversOne(s[|TransactionBytes(ts[0], bs)|..], bs, ts[1..], us[1..]);
      assert ts == [ts[0]] + ts[1..] && us == [us[0]] + us[1..];
    }
  }

  lemma FirstFound(s: seq<byte>, bs: nat, ts: seq<Transaction>, tail: seq<byte>)
    requires AreTransactions(ts, bs) && Next(tail, bs).Stop? && s == LogBytes(ts, bs) + tail
    ensures ts == [] ==> Next(s, bs).Stop?
    ensures ts != [] ==>
              && Next(s, bs) == End(ts[0].writes, ts[0].last, |TransactionBytes(ts[0], bs)|)
              && Recovers(s[|TransactionBytes(ts[0], bs)|..], bs, ts[1..])
  {
    hide Next, TransactionBytes, IsTransaction;
    if ts == [] {
      assert s == tail;
    } else {
      LogBytesFirst(ts, bs);
      var b, rest := TransactionBytes(ts[0], bs), LogBytes(ts[1..], bs);
      assert s == b + (rest + tail) && s[|b|..] == rest + tail;
      NextOf(ts[0], bs, rest + tail);
    }
  }
}
