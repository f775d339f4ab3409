/**
The format of the journal: transactions as records in a log file, and what a scan of the file restores.
*/
module JournalLog {
  import opened Blocks
  import opened BigEndian
  import opened Wrappers

  // ---- The header.

  /** The letters of PREQUEL_TX_JOURNAL. */
  const MAGIC: seq<byte> := [80, 82, 69, 81, 85, 69, 76, 95, 84, 88, 95, 74, 79, 85, 82, 78, 65, 76, 0, 0]
  const VERSION: nat := 1

  /** What every log for blocks of `bs` bytes starts with. */
  function Header(bs: nat): (h: seq<byte>)
    requires bs < Pow256(4)
    ensures |h| == 28
  {
    MAGIC + Encode(VERSION, 4) + Encode(bs, 4)
  }

  lemma {:induction false} HeaderIs(s: seq<byte>, bs: nat)
    requires bs < Pow256(4) && |s| >= 28
    ensures Header(bs) <= s <==> s[..20] == MAGIC && Decode(s[20..24]) == VERSION && Decode(s[24..28]) == bs
  {
    hide Encode, Decode, Pow256;
    var h := Header(bs);
    SmallVersion();
    DecodeEncode(VERSION, 4);
    DecodeEncode(bs, 4);
    EncodeDecode(s[20..24]);
    EncodeDecode(s[24..28]);
    assert h[..20] == MAGIC && h[20..24] == Encode(VERSION, 4) && h[24..28] == Encode(bs, 4);
    assert s[..28] == s[..20] + s[20..24] + s[24..28];
    if h <= s {
      assert s[..28] == h;
      assert s[..20] == h[..20] && s[20..24] == h[20..24] && s[24..28] == h[24..28];
    }
  }

  lemma SmallVersion()
    ensures VERSION < Pow256(4)
  {
    assert Pow256(1) == 256;
    assert Pow256(2) == 65536;
  }

  // ---- Records.

  datatype Record = Begin | Abort | Commit(size: nat) | Write(index: nat, data: Block)

  const U64_END: nat := Pow256(8)

  /** A record that can be in a log for blocks of `bs` bytes. */
  predicate Fits(r: Record, bs: nat) {
    match r
    case Commit(size) => size < U64_END
    case Write(index, data) => index < U64_END && |data| == bs
    case _ => true
  }

  function SizeOf(r: Record, bs: nat): nat {
    match r
    case Commit(_) => 9
    case Write(_, _) => 9 + bs
    case _ => 1
  }

  /** A byte for the type, then a number, then the block. */
  function Bytes(r: Record, bs: nat): (s: seq<byte>)
    requires Fits(r, bs)
    ensures |s| == SizeOf(r, bs)
  {
    match r
    case Begin => [1]
    case Abort => [2]
    case Commit(size) => [3] + Encode(size, 8)
    case Write(index, data) => [4] + Encode(index, 8) + data
  }

  /** The record at the start of `s`, if there is a complete one. */
  function Read(s: seq<byte>, bs: nat): (r: Option<Record>)
    ensures r.Some? ==> Fits(r.value, bs) && SizeOf(r.value, bs) <= |s|
  {
    if |s| < 1 then None
    else if s[0] == 1 then Some(Begin)
    else if s[0] == 2 then Some(Abort)
    else if s[0] == 3 && |s| >= 9 then Some(Commit(Decode(s[1..9])))
    else if s[0] == 4 && |s| >= 9 + bs then Some(Write(Decode(s[1..9]), s[9..9 + bs]))
    else None
  }

  lemma ReadBytes(r: Record, bs: nat, tail: seq<byte>)
    requires Fits(r, bs)
    ensures Read(Bytes(r, bs) + tail, bs) == Some(r)
  {
    hide Encode, Decode;
    var s := Bytes(r, bs) + tail;
    match r
    case Commit(size) =>
      assert s[1..9] == Encode(size, 8);
      DecodeEncode(size, 8);
    case Write(index, data) =>
      assert s[1..9] == Encode(index, 8) && s[9..9 + bs] == data;
      DecodeEncode(index, 8);
    case _ =>
  }

  /** A record that is cut off is not read. */
  lemma ReadCut(r: Record, bs: nat, n: nat)
    requires Fits(r, bs) && n < SizeOf(r, bs)
    ensures Read(Bytes(r, bs)[..n], bs) == None
  {
    hide Encode, Decode;
  }

  /** What is read is what is there. */
  lemma ReadWhole(s: seq<byte>, bs: nat)
    requires Read(s, bs).Some?
    ensures var r := Read(s, bs).value; s == Bytes(r, bs) + s[SizeOf(r, bs)..]
  {
    hide Encode, Decode;
    var r := Read(s, bs).value;
    if r.Commit? || r.Write? {
      EncodeDecode(s[1..9]);
    }
    assert Bytes(r, bs) == s[..SizeOf(r, bs)];
  }

  /** The bytes of a record: its type, from 1 to 4; the size or the index in eight bytes; and the block. */
  ghost predicate RecordAt(s: seq<byte>, r: Record, bs: nat) {
    match r
    case Begin => |s| >= 1 && s[0] == 1
    case Abort => |s| >= 1 && s[0] == 2
    case Commit(size) => |s| >= 9 && s[0] == 3 && size < U64_END && Digits(s[1..9], size)
    case Write(index, data) => |s| >= 9 + bs && s[0] == 4 && index < U64_END && Digits(s[1..9], index) && data == s[9..9 + bs]
  }

  /** A record is read exactly where its bytes are. */
  lemma {:induction false} ReadIs(s: seq<byte>, bs: nat, r: Record)
    ensures Read(s, bs) == Some(r) <==> RecordAt(s, r, bs)
  {
    hide Encode, Decode, Digits, Pow256;
    if |s| >= 9 && (r.Commit? || r.Write?) {
      DigitsAre(s[1..9], if r.Commit? then r.size else r.index);
    }
  }

  lemma {:induction false} BytesAre(r: Record, bs: nat)
    requires Fits(r, bs)
    ensures RecordAt(Bytes(r, bs), r, bs)
  {
    hide Bytes, Read;
    ReadBytes(r, bs, []);
    assert Bytes(r, bs) + [] == Bytes(r, bs);
    ReadIs(Bytes(r, bs), bs, r);
  }

  // ---- Transactions.

  /** The writes of a transaction, and the record that ends it. */
  datatype Transaction = Transaction(writes: seq<Record>, last: Record)

  ghost predicate AreWrites(writes: seq<Record>, bs: nat) {
    forall i :: 0 <= i < |writes| ==> writes[i].Write? && Fits(writes[i], bs)
  }

  ghost predicate IsTransaction(t: Transaction, bs: nat) {
    AreWrites(t.writes, bs) && (t.last.Commit? || t.last.Abort?) && Fits(t.last, bs)
  }

  ghost function AllBytes(rs: seq<Record>, bs: nat): (s: seq<byte>)
    requires AreWrites(rs, bs)
  {
    if rs == [] then [] else AllBytes(rs[..|rs| - 1], bs) + Bytes(rs[|rs| - 1], bs)
  }

  ghost function TransactionBytes(t: Transaction, bs: nat): seq<byte>
    requires IsTransaction(t, bs)
  {
    Bytes(Begin, bs) + AllBytes(t.writes, bs) + Bytes(t.last, bs)
  }

  lemma {:induction false} AllBytesFirst(rs: seq<Record>, bs: nat)
    requires AreWrites(rs, bs) && |rs| > 0
    ensures AllBytes(rs, bs) == Bytes(rs[0], bs) + AllBytes(rs[1..], bs)
  {
    hide Bytes;
    var n := |rs| - 1;
    if n > 0 {
      AllBytesFirst(rs[..n], bs);
      var mid, last := rs[1..][..n - 1], rs[n];
      assert rs[..n][1..] == mid && rs[..n][0] == rs[0] && rs[1..][n - 1] == last;
      assert AllBytes(rs, bs) == Bytes(rs[0], bs) + AllBytes(mid, bs) + Bytes(last, bs);
      assert AllBytes(rs[1..], bs) == AllBytes(mid, bs) + Bytes(last, bs);
    } else {
      assert rs[..0] == [] && rs[1..] == [];
    }
  }

  /** A scan over the writes of a transaction. */
  datatype Scan = Stop | End(writes: seq<Record>, last: Record, length: nat)

  function Body(s: seq<byte>, bs: nat): (r: Scan)
    ensures r.End? ==> 0 < r.length <= |s|
    decreases |s|
  {
    var r := Read(s, bs);
    if r.None? || r.value.Begin? then Stop
    else if r.value.Write? then
      var rest := Body(s[SizeOf(r.value, bs)..], bs);
      if rest.Stop? then Stop else End([r.value] + rest.writes, rest.last, SizeOf(r.value, bs) + rest.length)
    else End([], r.value, SizeOf(r.value, bs))
  }

  /** The complete transaction at the start of `s`, if there is one. */
  function Next(s: seq<byte>, bs: nat): (r: Scan)
    ensures r.End? ==> 0 < r.length <= |s|
  {
    if Read(s, bs) != Some(Begin) then Stop
    else
      var r := Body(s[1..], bs);
      if r.Stop? then Stop else r.(length := r.length + 1)
  }

  lemma {:induction false} BodyOf(t: Transaction, bs: nat, tail: seq<byte>)
    requires IsTransaction(t, bs)
    ensures var s := AllBytes(t.writes, bs) + Bytes(t.last, bs);
            Body(s + tail, bs) == End(t.writes, t.last, |s|)
    decreases |t.writes|
  {
    hide Bytes, Read, AllBytes;
    var s := AllBytes(t.writes, bs) + Bytes(t.last, bs);
    if t.writes == [] {
      NoBytes(bs);
      assert s == Bytes(t.last, bs);
      ReadBytes(t.last, bs, tail);
    } else {
      var w, rest := t.writes[0], Transaction(t.writes[1..], t.last);
      AllBytesFirst(t.writes, bs);
      var s' := AllBytes(rest.writes, bs) + Bytes(t.last, bs);
      assert s + tail == Bytes(w, bs) + (s' + tail);
      ReadBytes(w, bs, s' + tail);
      BodyOf(rest, bs, tail);
      assert (s + tail)[SizeOf(w, bs)..] == s' + tail;
      assert [w] + rest.writes == t.writes;
    }
  }

  /** A complete transaction is found, whatever follows it. */
  lemma {:induction false} NextOf(t: Transaction, bs: nat, tail: seq<byte>)
    requires IsTransaction(t, bs)
    ensures Next(TransactionBytes(t, bs) + tail, bs) == End(t.writes, t.last, |TransactionBytes(t, bs)|)
  {
    hide Bytes, Read, Body;
    var s := AllBytes(t.writes, bs) + Bytes(t.last, bs);
    var all := TransactionBytes(t, bs) + tail;
    assert all == Bytes(Begin, bs) + (s + tail);
    ReadBytes(Begin, bs, s + tail);
    BodyOf(t, bs, tail);
    assert all[1..] == s + tail;
  }

  lemma {:induction false} BodyCut(t: Transaction, bs: nat, n: nat)
    requires IsTransaction(t, bs) && n < |AllBytes(t.writes, bs) + Bytes(t.last, bs)|
    ensures Body((AllBytes(t.writes, bs) + Bytes(t.last, bs))[..n], bs) == Stop
    decreases |t.writes|
  {
    hide Bytes, Read;
    var s := AllBytes(t.writes, bs) + Bytes(t.last, bs);
    if t.writes == [] {
      assert s == Bytes(t.last, bs);
      ReadCut(t.last, bs, n);
    } else {
      var w, rest := t.writes[0], Transaction(t.writes[1..], t.last);
      var k := SizeOf(w, bs);
      AllBytesFirst(t.writes, bs);
      var s' := AllBytes(rest.writes, bs) + Bytes(t.last, bs);
      assert s == Bytes(w, bs) + s';
      if n < k {
        ReadCut(w, bs, n);
        assert s[..n] == Bytes(w, bs)[..n];
      } else {
        ReadBytes(w, bs, s'[..n - k]);
        assert s[..n] == Bytes(w, bs) + s'[..n - k] && s[..n][k..] == s'[..n - k];
        BodyCut(rest, bs, n - k);
      }
    }
  }

  /** The start of a transaction whose end is missing. */
  ghost predicate Unfinished(s: seq<byte>, bs: nat) {
    exists t :: IsTransaction(t, bs) && s < TransactionBytes(t, bs)
  }

  /** A transaction that is cut off anywhere is not found. */
  lemma {:induction false} NextOfUnfinished(s: seq<byte>, bs: nat)
    requires Unfinished(s, bs)
    ensures Next(s, bs) == Stop
  {
    hide Bytes, Read, Body, AllBytes;
    var t :| IsTransaction(t, bs) && s < TransactionBytes(t, bs);
    if |s| > 0 {
      var b := AllBytes(t.writes, bs) + Bytes(t.last, bs);
      CutBehindFirst(Bytes(Begin, bs), AllBytes(t.writes, bs), Bytes(t.last, bs), s);
      ReadBytes(Begin, bs, b[..|s| - 1]);
      BodyCut(t, bs, |s| - 1);
    } else {
      NothingToRead(bs);
    }
  }

  lemma CutBehindFirst(first: seq<byte>, a: seq<byte>, b: seq<byte>, s: seq<byte>)
    requires |first| == 1 && s < first + a + b && |s| > 0
    ensures s == first + (a + b)[..|s| - 1] && s[1..] == (a + b)[..|s| - 1]
  {
    assert first + a + b == first + (a + b);
  }

  lemma NothingToRead(bs: nat)
    ensures Read([], bs) == None
  {}

  // ---- What is restored.

  /** The blocks that the journal knows, and the size of the database, if it knows one. */
  datatype Image = Image(blocks: map<nat, Block>, size: Option<nat>)

  const NOTHING := Image(map[], None)

  /** The writes of a transaction over earlier ones; the last write of a block counts. */
  function Written(blocks: map<nat, Block>, writes: seq<Record>): map<nat, Block> {
    if writes == [] then blocks
    else
      var w := writes[|writes| - 1];
      if w.Write? then Written(blocks, writes[..|writes| - 1])[w.index := w.data] else blocks
  }

  function Below(blocks: map<nat, Block>, size: nat): map<nat, Block> {
    map i | i in blocks && i < size :: blocks[i]
  }

  /** A commit makes the writes count and drops the blocks behind the new end; other transactions have no effect. */
  function Apply(m: Image, t: Transaction): Image {
    if t.last.Commit? then Image(Below(Written(m.blocks, t.writes), t.last.size), Some(t.last.size)) else m
  }

  /** What a scan makes of a log behind its header, and how far it comes. */
  function Restore(s: seq<byte>, bs: nat, m: Image): (Image, nat)
    decreases |s|
  {
    var n := Next(s, bs);
    if n.Stop? then (m, 0)
    else
      var (m', length) := Restore(s[n.length..], bs, Apply(m, Transaction(n.writes, n.last)));
      (m', n.length + length)
  }

  ghost predicate AreTransactions(ts: seq<Transaction>, bs: nat) {
    forall i :: 0 <= i < |ts| ==> IsTransaction(ts[i], bs)
  }

  ghost function LogBytes(ts: seq<Transaction>, bs: nat): seq<byte>
    requires AreTransactions(ts, bs)
  {
    if ts == [] then [] else LogBytes(ts[..|ts| - 1], bs) + TransactionBytes(ts[|ts| - 1], bs)
  }

  function After(ts: seq<Transaction>): Image {
    if ts == [] then NOTHING else Apply(After(ts[..|ts| - 1]), ts[|ts| - 1])
  }

  /** Applying one transaction after the other, from the front. */
  function Replayed(m: Image, ts: seq<Transaction>): Image
    decreases |ts|
  {
    if ts == [] then m else Replayed(Apply(m, ts[0]), ts[1..])
  }

  lemma {:induction false} ReplayedLast(m: Image, ts: seq<Transaction>, t: Transaction)
    ensures Replayed(m, ts + [t]) == Apply(Replayed(m, ts), t)
    decreases |ts|
  {
    hide Apply;
    if ts == [] {
      assert (ts + [t])[1..] == [];
    } else {
      ReplayedLast(Apply(m, ts[0]), ts[1..], t);
      assert (ts + [t])[1..] == ts[1..] + [t];
    }
  }

  lemma {:induction false} ReplayedIsAfter(ts: seq<Transaction>)
    ensures Replayed(NOTHING, ts) == After(ts)
  {
    if ts != [] {
      var n := |ts| - 1;
      ReplayedIsAfter(ts[..n]);
      ReplayedLast(NOTHING, ts[..n], ts[n]);
      assert ts[..n] + [ts[n]] == ts;
    }
  }

  lemma {:induction false} LogBytesFirst(ts: seq<Transaction>, bs: nat)
    requires AreTransactions(ts, bs) && |ts| > 0
    ensures LogBytes(ts, bs) == TransactionBytes(ts[0], bs) + LogBytes(ts[1..], bs)
  {
    hide TransactionBytes, IsTransaction;
    var n := |ts| - 1;
    if n > 0 {
      LogBytesFirst(ts[..n], bs);
      var mid, last := ts[1..][..n - 1], ts[n];
      assert ts[..n][1..] == mid && ts[..n][0] == ts[0] && ts[1..][n - 1] == last;
      assert LogBytes(ts, bs) == TransactionBytes(ts[0], bs) + LogBytes(mid, bs) + TransactionBytes(last, bs);
      assert LogBytes(ts[1..], bs) == LogBytes(mid, bs) + TransactionBytes(last, bs);
    } else {
      assert ts[..0] == [] && ts[1..] == [];
    }
  }

  /** Complete transactions are restored, and then the scan goes on behind them. */
  lemma {:induction false} RestoreOf(ts: seq<Transaction>, bs: nat, tail: seq<byte>, m: Image)
    requires AreTransactions(ts, bs)
    ensures var (m', n) := Restore(tail, bs, Replayed(m, ts));
            Restore(LogBytes(ts, bs) + tail, bs, m) == (m', |LogBytes(ts, bs)| + n)
    decreases |ts|
  {
    hide TransactionBytes, IsTransaction, Next, Apply;
    if ts == [] {
      assert LogBytes(ts, bs) + tail == tail;
    } else {
      var b, rest := TransactionBytes(ts[0], bs), LogBytes(ts[1..], bs);
      LogBytesFirst(ts, bs);
      var all := LogBytes(ts, bs) + tail;
      assert all == b + (rest + tail) && all[|b|..] == rest + tail;
      NextOf(ts[0], bs, rest + tail);
      RestoreOf(ts[1..], bs, tail, Apply(m, ts[0]));
      assert Transaction(ts[0].writes, ts[0].last) == ts[0];
    }
  }

  /** No complete transaction starts behind those of the list. */
  ghost predicate Recovers(s: seq<byte>, bs: nat, ts: seq<Transaction>) {
    AreTransactions(ts, bs) && exists tail :: Next(tail, bs).Stop? && s == LogBytes(ts, bs) + tail
  }

  /** Such a log restores exactly what was committed before. */
  lemma {:induction false} RecoversOk(s: seq<byte>, bs: nat, ts: seq<Transaction>)
    requires Recovers(s, bs, ts)
    ensures Restore(s, bs, NOTHING) == (After(ts), |LogBytes(ts, bs)|)
  {
    hide LogBytes, Next, After, Replayed;
    var tail :| Next(tail, bs).Stop? && s == LogBytes(ts, bs) + tail;
    RestoreOf(ts, bs, tail, NOTHING);
    ReplayedIsAfter(ts);
  }

  /** What is found as a transaction is exactly the bytes that are there. */
  lemma {:induction false} BodyWhole(s: seq<byte>, bs: nat)
    requires Body(s, bs).End?
    ensures IsTransaction(Transaction(Body(s, bs).writes, Body(s, bs).last), bs)
    ensures s == AllBytes(Body(s, bs).writes, bs) + Bytes(Body(s, bs).last, bs) + s[Body(s, bs).length..]
    decreases |s|
  {
    hide Bytes, Read, AllBytes, AreWrites, Fits;
    ReadWhole(s, bs);
    var w := Read(s, bs).value;
    if w.Write? {
      var n := SizeOf(w, bs);
      var rest := Body(s[n..], bs);
      BodyWhole(s[n..], bs);
      WholeStep(s, bs, w, rest.writes, Bytes(rest.last, bs), rest.length);
    } else {
      NoBytes(bs);
      assert [] + Bytes(w, bs) == Bytes(w, bs);
    }
  }

  lemma WholeStep(s: seq<byte>, bs: nat, w: Record, ws: seq<Record>, last: seq<byte>, length: nat)
    requires w.Write? && Fits(w, bs) && AreWrites(ws, bs) && SizeOf(w, bs) + length <= |s| && s == Bytes(w, bs) + s[SizeOf(w, bs)..]
    requires s[SizeOf(w, bs)..] == AllBytes(ws, bs) + last + s[SizeOf(w, bs)..][length..]
    ensures AreWrites([w] + ws, bs) && s == AllBytes([w] + ws, bs) + last + s[SizeOf(w, bs) + length..]
  {
    hide Bytes, AllBytes;
    var n := SizeOf(w, bs);
    assert AreWrites([w] + ws, bs);
    AllBytesFirst([w] + ws, bs);
    assert ([w] + ws)[1..] == ws && s[n..][length..] == s[n + length..];
    var a, b, d := Bytes(w, bs), AllBytes(ws, bs), s[n + length..];
    assert a + (b + last + d) == a + b + last + d;
  }

  lemma {:induction false} NextWhole(s: seq<byte>, bs: nat)
    requires Next(s, bs).End?
    ensures var r := Next(s, bs);
            var t := Transaction(r.writes, r.last);
            IsTransaction(t, bs) && s == TransactionBytes(t, bs) + s[r.length..]
  {
    hide Bytes, Read, AllBytes, Body;
    BodyWhole(s[1..], bs);
    ReadWhole(s, bs);
    var r := Next(s, bs);
    assert s[1..][r.length - 1..] == s[r.length..];
    var a, b, d := Bytes(Begin, bs), AllBytes(r.writes, bs), Bytes(r.last, bs);
    assert a + (b + d + s[r.length..]) == a + b + d + s[r.length..];
  }

  /** Every sequence of bytes starts with some transactions, maybe none, behind which no other one is found. */
  lemma {:induction false} EveryLog(s: seq<byte>, bs: nat) returns (ts: seq<Transaction>)
    ensures Recovers(s, bs, ts) && (ts == [] <==> Next(s, bs).Stop?)
    decreases |s|
  {
    hide Next, TransactionBytes, IsTransaction;
    if Next(s, bs).Stop? {
      ts := [];
      assert LogBytes(ts, bs) + s == s;
    } else {
      var r := Next(s, bs);
      NextWhole(s, bs);
      var t := Transaction(r.writes, r.last);
      var rest := EveryLog(s[r.length..], bs);
      ts := [t] + rest;
      assert ts[1..] == rest;
      LogBytesFirst(ts, bs);
      var tail :| Next(tail, bs).Stop? && s[r.length..] == LogBytes(rest, bs) + tail;
      assert s == LogBytes(ts, bs) + tail;
    }
  }

  /**
  Behind the synced part of a log a crash may leave anything. The complete transactions that it starts with are
  restored as if they had been committed after the others; the scan comes no further than the synced part exactly if
  there are none.
  */
  lemma {:induction false} AnyTail(ts: seq<Transaction>, bs: nat, tail: seq<byte>) returns (us: seq<Transaction>)
    requires AreTransactions(ts, bs)
    ensures Recovers(tail, bs, us) && (us == [] <==> Next(tail, bs).Stop?)
    ensures var (m, n) := Restore(LogBytes(ts, bs) + tail, bs, NOTHING);
            m == After(ts + us) && (n == |LogBytes(ts, bs)| <==> us == [])
  {
    hide LogBytes, Next, After, Replayed, TransactionBytes, IsTransaction;
    us := EveryLog(tail, bs);
    var rest :| Next(rest, bs).Stop? && tail == LogBytes(us, bs) + rest;
    LogBytesAppend(ts, us, bs);
    assert LogBytes(ts, bs) + tail == LogBytes(ts + us, bs) + rest;
    RecoversOk(LogBytes(ts, bs) + tail, bs, ts + us);
    NoneIsEmpty(us, bs);
  }

  lemma {:induction false} LogBytesAppend(ts: seq<Transaction>, us: seq<Transaction>, bs: nat)
    requires AreTransactions(ts, bs) && AreTransactions(us, bs)
    ensures AreTransactions(ts + us, bs) && LogBytes(ts + us, bs) == LogBytes(ts, bs) + LogBytes(us, bs)
    decreases |us|
  {
    hide TransactionBytes, IsTransaction;
    if us == [] {
      assert ts + us == ts && LogBytes(ts, bs) + [] == LogBytes(ts, bs);
    } else {
      var n := |us| - 1;
      LogBytesAppend(ts, us[..n], bs);
      assert (ts + us)[..|ts| + n] == ts + us[..n];
      var a, b, d := LogBytes(ts, bs), LogBytes(us[..n], bs), TransactionBytes(us[n], bs);
      assert a + b + d == a + (b + d);
    }
  }

  lemma NoneIsEmpty(ts: seq<Transaction>, bs: nat)
    requires AreTransactions(ts, bs)
    ensures LogBytes(ts, bs) == [] <==> ts == []
  {
    hide AllBytes;
  }

  // ---- Blocks inside a transaction.

  /** Where the block of write `k` starts, behind the beginning of the writes. */
  ghost function DataAt(writes: seq<Record>, bs: nat, k: nat): nat
    requires AreWrites(writes, bs) && k < |writes|
  {
    |AllBytes(writes[..k], bs)| + 9
  }

  lemma WritesConcat(a: seq<Record>, b: seq<Record>, bs: nat)
    requires AreWrites(a, bs) && AreWrites(b, bs)
    ensures AreWrites(a + b, bs)
  {}

  lemma WritesSlice(a: seq<Record>, i: nat, j: nat, bs: nat)
    requires AreWrites(a, bs) && i <= j <= |a|
    ensures AreWrites(a[i..j], bs)
  {}

  lemma AllBytesLast(rs: seq<Record>, r: Record, bs: nat)
    requires AreWrites(rs, bs) && r.Write? && Fits(r, bs)
    ensures AreWrites(rs + [r], bs) && AllBytes(rs + [r], bs) == AllBytes(rs, bs) + Bytes(r, bs)
  {
    hide Bytes;
    assert (rs + [r])[..|rs|] == rs;
  }

  lemma {:induction false} AllBytesSplit(a: seq<Record>, b: seq<Record>, bs: nat)
    requires AreWrites(a, bs) && AreWrites(b, bs)
    ensures AreWrites(a + b, bs) && AllBytes(a + b, bs) == AllBytes(a, bs) + AllBytes(b, bs)
    decreases |b|
  {
    hide Bytes, AllBytes, AreWrites, Fits;
    WritesConcat(a, b, bs);
    if b == [] {
      assert a + b == a;
      NoBytes(bs);
    } else {
      var n := |b| - 1;
      var b', r := b[0..n], b[n];
      WritesSlice(b, 0, n, bs);
      WriteAt(b, n, bs);
      AllBytesSplit(a, b', bs);
      AllBytesLast(b', r, bs);
      AllBytesLast(a + b', r, bs);
      assert b == b' + [r] && a + b == a + b' + [r];
    }
  }

  lemma NoBytes(bs: nat)
    ensures AreWrites([], bs) && AllBytes([], bs) == []
  {}

  lemma WriteAt(rs: seq<Record>, i: nat, bs: nat)
    requires AreWrites(rs, bs) && i < |rs|
    ensures rs[i].Write? && Fits(rs[i], bs)
  {}

  lemma {:induction false} AllBytesAround(writes: seq<Record>, bs: nat, k: nat)
    requires AreWrites(writes, bs) && k < |writes|
    ensures AllBytes(writes, bs) == AllBytes(writes[..k], bs) + Bytes(writes[k], bs) + AllBytes(writes[k + 1..], bs)
  {
    hide Bytes;
    AllBytesSplit(writes[..k + 1], writes[k + 1..], bs);
    assert writes == writes[..k + 1] + writes[k + 1..] && writes[..k + 1][..k] == writes[..k];
  }

  /** The block of a write is in the log where it should be. */
  lemma {:induction false} DataIsThere(writes: seq<Record>, bs: nat, k: nat)
    requires AreWrites(writes, bs) && k < |writes|
    ensures DataAt(writes, bs, k) + bs <= |AllBytes(writes, bs)|
    ensures AllBytes(writes, bs)[DataAt(writes, bs, k)..DataAt(writes, bs, k) + bs] == writes[k].data
  {
    hide Bytes, AllBytes;
    AllBytesAround(writes, bs, k);
    RecordData(writes[k], bs);
    SliceMiddle(AllBytes(writes[..k], bs), Bytes(writes[k], bs), AllBytes(writes[k + 1..], bs), 9, bs);
  }

  lemma RecordData(r: Record, bs: nat)
    requires r.Write? && Fits(r, bs)
    ensures Bytes(r, bs)[9..9 + bs] == r.data
  {
    hide Encode;
  }

  lemma SliceMiddle(a: seq<byte>, r: seq<byte>, b: seq<byte>, at: nat, n: nat)
    requires at + n <= |r|
    ensures (a + r + b)[|a| + at..|a| + at + n] == r[at..at + n]
  {}

  /** Overwriting the block of a write, or the start of it, in the log. */
  lemma {:induction false} DataReplaced(writes: seq<Record>, bs: nat, k: nat, data: Block)
    requires AreWrites(writes, bs) && k < |writes| && |data| <= bs
    ensures var w := Write(writes[k].index, data + writes[k].data[|data|..]);
            && AreWrites(writes[k := w], bs) && DataAt(writes, bs, k) + bs <= |AllBytes(writes, bs)|
            && AllBytes(writes[k := w], bs) == Splice(AllBytes(writes, bs), DataAt(writes, bs, k), data)
  {
    hide Bytes, AllBytes, Splice;
    var w := Write(writes[k].index, data + writes[k].data[|data|..]);
    var writes' := writes[k := w];
    AllBytesAround(writes, bs, k);
    AllBytesAround(writes', bs, k);
    assert writes'[..k] == writes[..k] && writes'[k + 1..] == writes[k + 1..];
    RecordReplaced(writes[k], bs, data);
    assert AreWrites(writes', bs);
    var a, r, b := AllBytes(writes[..k], bs), Bytes(writes[k], bs), AllBytes(writes[k + 1..], bs);
    SpliceMiddle(a, r, b, 9, data);
  }

  lemma RecordReplaced(r: Record, bs: nat, data: Block)
    requires r.Write? && Fits(r, bs) && |data| <= bs
    ensures var w := Write(r.index, data + r.data[|data|..]); Fits(w, bs) && Bytes(w, bs) == Splice(Bytes(r, bs), 9, data)
  {
    hide Encode;
  }

  lemma SpliceMiddle(a: seq<byte>, r: seq<byte>, b: seq<byte>, at: nat, data: seq<byte>)
    requires at + |data| <= |r|
    ensures a + Splice(r, at, data) + b == Splice(a + r + b, |a| + at, data)
  {}

  /**
  Without checksums, a crash that keeps the end of a transaction and not all of its blocks is not
  noticed: the log restores blocks that were never committed.
  */
  lemma {:induction false} TornBlockIsRestored(ts: seq<Transaction>, t: Transaction, bs: nat, k: nat, data: Block)
    requires AreTransactions(ts, bs) && IsTransaction(t, bs) && k < |t.writes| && |data| == bs
    ensures var at := 1 + DataAt(t.writes, bs, k);
            var t' := t.(writes := t.writes[k := Write(t.writes[k].index, data)]);
            && at + bs <= |TransactionBytes(t, bs)| && IsTransaction(t', bs)
            && Restore(LogBytes(ts, bs) + Splice(TransactionBytes(t, bs), at, data), bs, NOTHING).0 == After(ts + [t'])
  {
    hide Bytes, LogBytes, Restore, AllBytes, Splice, DataAt, Apply;
    DataReplaced(t.writes, bs, k, data);
    assert data + t.writes[k].data[|data|..] == data;
    var t' := t.(writes := t.writes[k := Write(t.writes[k].index, data)]);
    SpliceMiddle(Bytes(Begin, bs), AllBytes(t.writes, bs), Bytes(t.last, bs), DataAt(t.writes, bs, k), data);
    LogBytesLast(ts, t', bs);
    RestoreAll(ts + [t'], bs);
  }

  lemma LogBytesLast(ts: seq<Transaction>, t: Transaction, bs: nat)
    requires AreTransactions(ts, bs) && IsTransaction(t, bs)
    ensures AreTransactions(ts + [t], bs) && LogBytes(ts + [t], bs) == LogBytes(ts, bs) + TransactionBytes(t, bs)
  {
    assert (ts + [t])[..|ts|] == ts;
  }

  lemma {:induction false} RestoreAll(ts: seq<Transaction>, bs: nat)
    requires AreTransactions(ts, bs)
    ensures Restore(LogBytes(ts, bs), bs, NOTHING) == (After(ts), |LogBytes(ts, bs)|)
  {
    hide LogBytes, Next, After, Replayed;
    assert LogBytes(ts, bs) + [] == LogBytes(ts, bs);
    NextOfNothing(bs);
    RecoversOk(LogBytes(ts, bs), bs, ts);
  }

  // ---- The database.

  /** Block `i` of the database file; behind its end there are zeros. */
  function At(file: seq<Block>, bs: nat, i: nat): Block {
    if i < |file| then file[i] else Zeros(bs)
  }

  /** The database as the journal and the database file have it together. */
  function View(m: Image, file: seq<Block>, bs: nat): (v: seq<Block>) {
    seq(if m.size.Some? then m.size.value else |file|, i requires 0 <= i => if i in m.blocks then m.blocks[i] else At(file, bs, i))
  }

  lemma ViewSize(m: Image, file: seq<Block>, bs: nat)
    ensures |View(m, file, bs)| == if m.size.Some? then m.size.value else |file|
  {}

  /** The blocks that the journal does not have are the same, and the file is not too long. */
  ghost predicate SameElsewhere(m: Image, file: seq<Block>, file': seq<Block>, bs: nat) {
    m.size.Some? && (|file'| <= |file| || |file'| <= m.size.value) && forall i: nat :: i < m.size.value && i !in m.blocks ==> At(file', bs, i) == At(file, bs, i)
  }

  /** What the journal has in the database file does not matter. */
  lemma SameView(m: Image, file: seq<Block>, file': seq<Block>, bs: nat)
    requires SameElsewhere(m, file, file', bs)
    ensures View(m, file', bs) == View(m, file, bs)
  {
    hide At;
  }

  /** The blocks of the journal lie in the database. */
  lemma {:induction false} AfterBelow(ts: seq<Transaction>)
    ensures var m := After(ts); if m.size.None? then m.blocks == map[] else forall i :: i in m.blocks ==> i < m.size.value
  {
    hide Written;
    if ts != [] {
      AfterBelow(ts[..|ts| - 1]);
    }
  }

  lemma {:induction false} AfterFits(ts: seq<Transaction>, bs: nat)
    requires AreTransactions(ts, bs)
    ensures After(ts).size.Some? ==> After(ts).size.value < U64_END
  {
    hide Written, Pow256;
    if ts != [] {
      AfterFits(ts[..|ts| - 1], bs);
    }
  }

  lemma NextOfNothing(bs: nat)
    ensures Next([], bs) == Stop
  {}
}
