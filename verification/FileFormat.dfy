/**
The file format with its dirty flag, over a file of which only some writes survive a crash.
*/
module FileFormat {
  import opened Blocks
  import opened Wrappers
  import S = Serialization
  import B = BigEndian

  type Image = map<nat, Block>

  // ---- The file.

  /** What a crash may leave: every block has its durable content or any content written since. */
  ghost predicate Remains(durable: Image, pending: map<nat, set<Block>>, d: Image) {
    && (forall b :: b in d ==> (b in durable && d[b] == durable[b]) || (b in pending && d[b] in pending[b]))
    && (forall b :: b in durable ==> b in d)
  }

  lemma NothingPending(durable: Image, d: Image)
    ensures Remains(durable, map[], d) <==> d == durable
  {}

  /** The only write since the last sync was one of block `b`. */
  lemma OnePending(durable: Image, b: nat, data: Block, d: Image)
    requires Remains(durable, map[b := {data}], d)
    ensures d == durable || d == durable[b := data]
  {}

  class Disk {
    var current: Image

    /** The bytes behind the last whole block. */
    const rest: nat

    /** The content at the last sync, and everything written to each block since then. */
    ghost var durable: Image
    ghost var pending: map<nat, set<Block>>

    /** All images that a crash could have left behind at some point since recording started. */
    ghost var seen: iset<Image>

    ghost predicate Valid()
      reads this
    {
      && durable.Keys + pending.Keys == current.Keys
      && (forall b :: b in pending ==> b in current && current[b] in pending[b])
      && (forall b :: b in current && b !in pending ==> b in durable && current[b] == durable[b])
      && (forall d :: Remains(durable, pending, d) ==> d in seen)
    }

    constructor (image: Image, rest: nat)
      ensures Valid() && current == durable == image && pending == map[] && this.rest == rest
    {
      this.rest := rest;
      current, durable, pending, seen := image, image, map[], iset{image};
      new;
      forall d | Remains(durable, pending, d) ensures d in seen {
        NothingPending(durable, d);
      }
    }

    /** Writes a block; the write may or may not survive a crash. */
    method Write(b: nat, data: Block)
      requires Valid()
      modifies this
      ensures Valid() && current == old(current)[b := data] && durable == old(durable)
      ensures pending == old(pending)[b := (if b in old(pending) then old(pending)[b] else {}) + {data}]
      ensures forall d :: d in seen <==> d in old(seen) || Remains(durable, pending, d)
    {
      hide Remains;
      current := current[b := data];
      pending := pending[b := (if b in pending then pending[b] else {}) + {data}];
      seen := seen + iset d: Image | Remains(durable, pending, d);
    }

    /** Makes everything durable. */
    method Sync()
      requires Valid()
      modifies this
      ensures Valid() && current == old(current) && durable == current && pending == map[]
      ensures seen == old(seen)
    {
      assert Remains(durable, pending, current);
      durable, pending := current, map[];
      forall d | Remains(durable, pending, d) ensures d in seen {
        NothingPending(durable, d);
      }
    }

    /** Starts to record what a crash may leave behind. */
    ghost method Watch()
      requires Valid()
      modifies this`seen
      ensures Valid() && forall d :: d in seen <==> Remains(durable, pending, d)
    {
      hide Remains;
      seen := iset d: Image | Remains(durable, pending, d);
    }
  }

  // ---- The header.

  const MAGIC_SIZE: nat := 20
  const FLAG_INITIALIZED: nat := 1
  const FLAG_DIRTY: nat := 2

  /** Magic bytes, version, flags, block size, size of the user data, anchor of the allocator. */
  function HeaderType(anchor: S.Type): S.Type {
    S.Tuple([S.Array(S.UInt(1), MAGIC_SIZE), S.UInt(4), S.UInt(1), S.UInt(4), S.UInt(4), anchor])
  }

  predicate IsHeader(h: S.Value, anchor: S.Type) {
    S.Fits(anchor) && S.HasType(h, HeaderType(anchor))
  }

  function Flags(h: S.Value, anchor: S.Type): (f: nat)
    requires IsHeader(h, anchor)
  {
    assert S.HasType(h.items[2], HeaderType(anchor).fields[2]);
    h.items[2].number
  }

  predicate IsInitialized(flags: nat) {
    flags % 2 == 1
  }

  predicate IsDirty(flags: nat) {
    flags / 2 % 2 == 1
  }

  function SetDirty(flags: nat): (f: nat)
    ensures IsDirty(f) && IsInitialized(f) == IsInitialized(flags)
  {
    if IsDirty(flags) then flags else flags + FLAG_DIRTY
  }

  function ClearDirty(flags: nat): (f: nat)
    ensures !IsDirty(f) && IsInitialized(f) == IsInitialized(flags)
  {
    if IsDirty(flags) then flags - FLAG_DIRTY else flags
  }

  function WithFlags(h: S.Value, flags: nat, anchor: S.Type): (r: S.Value)
    requires IsHeader(h, anchor) && flags < 256
    ensures IsHeader(r, anchor) && Flags(r, anchor) == flags
  {
    S.List(h.items[2 := S.Number(flags)])
  }

  lemma FlagsAreByte(h: S.Value, anchor: S.Type)
    requires IsHeader(h, anchor)
    ensures Flags(h, anchor) < 256 && SetDirty(Flags(h, anchor)) < 256 && ClearDirty(Flags(h, anchor)) < 256
  {
    assert S.HasType(h.items[2], S.UInt(1));
  }

  /** The header with the dirty mark, and without it. */
  function Marked(h: S.Value, anchor: S.Type): (r: S.Value)
    requires IsHeader(h, anchor)
    ensures IsHeader(r, anchor) && IsDirty(Flags(r, anchor))
  {
    FlagsAreByte(h, anchor);
    WithFlags(h, SetDirty(Flags(h, anchor)), anchor)
  }

  function Unmarked(h: S.Value, anchor: S.Type): (r: S.Value)
    requires IsHeader(h, anchor)
    ensures IsHeader(r, anchor) && !IsDirty(Flags(r, anchor))
  {
    FlagsAreByte(h, anchor);
    WithFlags(h, ClearDirty(Flags(h, anchor)), anchor)
  }

  lemma HeaderFits(anchor: S.Type)
    requires S.Fits(anchor)
    ensures S.Fits(HeaderType(anchor))
  {}

  function HeaderSize(anchor: S.Type): nat {
    S.Size(HeaderType(anchor))
  }

  /** The header at the start of the main block. */
  function ReadHeader(b: Block, anchor: S.Type): (r: Result<S.Value, S.Corruption>)
    requires S.Fits(anchor) && HeaderSize(anchor) <= |b|
    ensures r.Success? ==> IsHeader(r.value, anchor)
  {
    HeaderFits(anchor);
    S.Decode(HeaderType(anchor), b[..HeaderSize(anchor)])
  }

  function WriteHeader(b: Block, h: S.Value, anchor: S.Type): (r: Block)
    requires IsHeader(h, anchor) && HeaderSize(anchor) <= |b|
    ensures |r| == |b|
  {
    HeaderFits(anchor);
    Splice(b, 0, S.Encode(h, HeaderType(anchor)))
  }

  lemma HeaderReadBack(b: Block, h: S.Value, anchor: S.Type)
    requires IsHeader(h, anchor) && HeaderSize(anchor) <= |b|
    ensures ReadHeader(WriteHeader(b, h, anchor), anchor) == Success(h)
  {
    hide S.Encode, S.Decode, S.Size, S.HasType, HeaderType;
    HeaderFits(anchor);
    S.RoundTrip(h, HeaderType(anchor));
    assert WriteHeader(b, h, anchor)[..HeaderSize(anchor)] == S.Encode(h, HeaderType(anchor));
  }

  lemma UserDataKeepsHeader(b: Block, at: nat, data: seq<byte>, anchor: S.Type)
    requires S.Fits(anchor) && HeaderSize(anchor) <= at && at + |data| <= |b|
    ensures ReadHeader(Splice(b, at, data), anchor) == ReadHeader(b, anchor)
  {
    hide S.Decode, S.Size, HeaderType;
    assert Splice(b, at, data)[..HeaderSize(anchor)] == b[..HeaderSize(anchor)];
  }

  /** What the application expects of its files. */
  datatype Format = Format(magic: S.Value, version: nat, blockSize: nat, userDataSize: nat, anchor: S.Type) {
    predicate Ok() {
      S.Fits(anchor) && HeaderSize(anchor) + userDataSize <= blockSize && S.HasType(magic, S.Array(S.UInt(1), MAGIC_SIZE))
      && version < 0x1_0000_0000 && blockSize < 0x1_0000_0000 && userDataSize < 0x1_0000_0000
    }

    /** The checks on the header of a file that is opened. */
    predicate Accepts(h: S.Value)
      requires IsHeader(h, anchor)
    {
      && h.items[0] == magic && h.items[1] == S.Number(version) && h.items[3] == S.Number(blockSize) && h.items[4] == S.Number(userDataSize)
      && IsInitialized(Flags(h, anchor)) && !IsDirty(Flags(h, anchor))
    }

    /** The header would be accepted if it were not marked as dirty. */
    predicate AcceptsClean(h: S.Value)
      requires IsHeader(h, anchor)
    {
      Accepts(Unmarked(h, anchor))
    }

    predicate AcceptsBlock(b: Block)
      requires S.Fits(anchor)
    {
      |b| == blockSize && HeaderSize(anchor) <= |b| && ReadHeader(b, anchor).Success? && Accepts(ReadHeader(b, anchor).value)
    }

    /** The header of a new file, not marked as dirty yet. */
    function NewHeader(allocator: S.Value): (h: S.Value)
      requires Ok() && S.HasType(allocator, anchor)
      ensures IsHeader(h, anchor) && Accepts(h) && Flags(h, anchor) == FLAG_INITIALIZED
    {
      var h := S.List([magic, S.Number(version), S.Number(FLAG_INITIALIZED), S.Number(blockSize), S.Number(userDataSize), allocator]);
      NewHeaderIsTyped(this, allocator, h);
      h
    }

    /** The main block of a new file: header, user data, zeroes. */
    function NewMainBlock(userData: seq<byte>, allocator: S.Value): (b: Block)
      requires Ok() && S.HasType(allocator, anchor) && |userData| == userDataSize
      ensures |b| == blockSize
    {
      WriteHeader(Splice(Zeros(blockSize), HeaderSize(anchor), userData), NewHeader(allocator), anchor)
    }

    /** A file that would be opened. */
    ghost predicate Passes(d: Image)
      requires S.Fits(anchor)
    {
      0 in d && AcceptsBlock(d[0])
    }
  }

  lemma NewHeaderIsTyped(format: Format, anchor: S.Value, h: S.Value)
    requires format.Ok() && S.HasType(anchor, format.anchor)
    requires h == S.List([format.magic, S.Number(format.version), S.Number(FLAG_INITIALIZED), S.Number(format.blockSize), S.Number(format.userDataSize), anchor])
    ensures IsHeader(h, format.anchor) && format.Accepts(h) && Flags(h, format.anchor) == FLAG_INITIALIZED
  {}

  // ---- The bytes of the header.

  /**
  The main block of a file that is opened: the magic bytes, the version, a byte in which the lowest bit is set and the
  next one is not, the block size, the size of the user data, and an anchor that can be read.
  */
  ghost predicate HeaderBytes(b: Block, format: Format)
    requires format.Ok()
  {
    && |b| == format.blockSize && 33 + S.Size(format.anchor) <= |b|
    && (forall i :: 0 <= i < 20 ==> format.magic.items[i] == S.Number(b[i] as int))
    && B.Digits(b[20..24], format.version) && b[24] % 2 == 1 && b[24] / 2 % 2 == 0
    && B.Digits(b[25..29], format.blockSize) && B.Digits(b[29..33], format.userDataSize)
    && exists a :: S.HasType(a, format.anchor) && S.Layout(b[33..33 + S.Size(format.anchor)], a, format.anchor, false)
  }

  lemma {:induction false} HeaderOffsets(anchor: S.Type)
    ensures var ts := HeaderType(anchor).fields;
            && S.SizeAll(ts[..0]) == 0 && S.SizeAll(ts[..1]) == 20 && S.SizeAll(ts[..2]) == 24 && S.SizeAll(ts[..3]) == 25
            && S.SizeAll(ts[..4]) == 29 && S.SizeAll(ts[..5]) == 33 && HeaderSize(anchor) == S.SizeAll(ts) == 33 + S.Size(anchor)
            && S.Size(ts[0]) == 20 && S.Size(ts[1]) == S.Size(ts[3]) == S.Size(ts[4]) == 4 && S.Size(ts[2]) == 1
  {
    hide S.SizeAll;
    var ts := HeaderType(anchor).fields;
    S.NoFields(ts, []);
    S.SizeOfPrefix(ts, 0);
    S.SizeOfPrefix(ts, 1);
    S.SizeOfPrefix(ts, 2);
    S.SizeOfPrefix(ts, 3);
    S.SizeOfPrefix(ts, 4);
    S.SizeOfPrefix(ts, 5);
    assert ts[..6] == ts;
  }

  function HeaderOf(magic: seq<S.Value>, version: nat, flags: nat, blockSize: nat, userDataSize: nat, allocator: S.Value): S.Value {
    S.List([S.List(magic), S.Number(version), S.Number(flags), S.Number(blockSize), S.Number(userDataSize), allocator])
  }

  lemma TupleLayout(s: seq<byte>, vs: seq<S.Value>, ts: seq<S.Type>, exact: bool)
    requires |vs| == |ts|
    ensures S.Layout(s, S.List(vs), S.Tuple(ts), exact) <==> S.FieldLayout(s, vs, ts, exact)
  {}

  lemma ListLayout(s: seq<byte>, vs: seq<S.Value>, e: S.Type, exact: bool)
    ensures S.Layout(s, S.List(vs), S.Array(e, |vs|), exact) <==> S.ArrayLayout(s, vs, e, exact)
  {}

  lemma NumberLayout(s: seq<byte>, v: nat, exact: bool)
    ensures S.Layout(s, S.Number(v), S.UInt(|s|), exact) <==> B.Digits(s, v)
  {}

  /** Where the fields of a header are. */
  lemma {:induction false} HeaderLayout(s: seq<byte>, magic: seq<S.Value>, version: nat, flags: nat, blockSize: nat, userDataSize: nat, allocator: S.Value,
                                        anchor: S.Type, exact: bool)
    requires IsHeader(HeaderOf(magic, version, flags, blockSize, userDataSize, allocator), anchor)
    requires |s| == HeaderSize(anchor) && |s| == 33 + S.Size(anchor) && |magic| == 20
    ensures S.Layout(s, HeaderOf(magic, version, flags, blockSize, userDataSize, allocator), HeaderType(anchor), exact) <==>
            && (forall i :: 0 <= i < 20 ==> magic[i] == S.Number(s[i] as int))
            && B.Digits(s[20..24], version) && s[24] as nat == flags && B.Digits(s[25..29], blockSize) && B.Digits(s[29..33], userDataSize)
            && S.Layout(s[33..], allocator, anchor, exact)
  {
    hide S.SizeAll, S.FieldLayout, B.Digits, S.FieldIs, S.Layout, S.ArrayLayout, S.Size, S.HasType;
    var h := HeaderOf(magic, version, flags, blockSize, userDataSize, allocator);
    var ts := HeaderType(anchor).fields;
    HeaderOffsets(anchor);
    S.FieldsAre(s, h.items, ts, exact);
    HeaderTyped(h, anchor);
    S.BytesAre(s[..20], magic, exact);
    S.OneByte(s[24..25], h.items[2], exact);
    assert s[33..33 + S.Size(anchor)] == s[33..];
    FieldAt(s, h.items, ts, 0, 0, 20, exact);
    FieldAt(s, h.items, ts, 1, 20, 4, exact);
    FieldAt(s, h.items, ts, 2, 24, 1, exact);
    FieldAt(s, h.items, ts, 3, 25, 4, exact);
    FieldAt(s, h.items, ts, 4, 29, 4, exact);
    FieldAt(s, h.items, ts, 5, 33, S.Size(anchor), exact);
    assert s[0..20] == s[..20];
    TupleLayout(s, h.items, ts, exact);
    ListLayout(s[..20], magic, S.UInt(1), exact);
    NumberLayout(s[20..24], version, exact);
    NumberLayout(s[25..29], blockSize, exact);
    NumberLayout(s[29..33], userDataSize, exact);
  }

  /** A file is accepted exactly if its main block has these bytes. */
  lemma {:induction false} AcceptsBytes(format: Format, b: Block)
    requires format.Ok()
    ensures format.AcceptsBlock(b) <==> HeaderBytes(b, format)
  {
    hide S.Layout, S.Decode, S.Encode, S.HasType, S.Size, S.SizeAll, S.Fits, B.Digits;
    HeaderOffsets(format.anchor);
    if |b| == format.blockSize {
      if format.AcceptsBlock(b) {
        AcceptedBytes(format, b);
      }
      if HeaderBytes(b, format) {
        BytesAccepted(format, b);
      }
    }
  }

  lemma PassesBytes(format: Format, d: Image)
    requires format.Ok()
    ensures format.Passes(d) <==> 0 in d && HeaderBytes(d[0], format)
  {
    hide Format.AcceptsBlock, HeaderBytes, Format.Ok;
    if 0 in d {
      AcceptsBytes(format, d[0]);
    }
  }

  lemma {:induction false} AcceptedBytes(format: Format, b: Block)
    requires format.Ok() && format.AcceptsBlock(b)
    ensures HeaderBytes(b, format)
  {
    hide S.Layout, S.Decode, S.SizeAll, B.Digits, S.Size;
    var n := HeaderSize(format.anchor);
    HeaderOffsets(format.anchor);
    HeaderFits(format.anchor);
    var s, h := b[..n], ReadHeader(b, format.anchor).value;
    S.DecodeIs(HeaderType(format.anchor), s, h);
    HeaderTyped(h, format.anchor);
    var flags, a := h.items[2].number, h.items[5];
    assert h.items == [h.items[0], h.items[1], h.items[2], h.items[3], h.items[4], h.items[5]];
    assert h == HeaderOf(format.magic.items, format.version, flags, format.blockSize, format.userDataSize, a);
    HeaderLayout(s, format.magic.items, format.version, flags, format.blockSize, format.userDataSize, a, format.anchor, false);
    SamePlaces(b, n);
  }

  lemma SamePlaces(b: Block, n: nat)
    requires 33 <= n <= |b|
    ensures b[..n][20..24] == b[20..24] && b[..n][25..29] == b[25..29] && b[..n][29..33] == b[29..33] && b[..n][33..] == b[33..n]
  {}

  lemma {:induction false} BytesAccepted(format: Format, b: Block)
    requires format.Ok() && HeaderBytes(b, format)
    ensures format.AcceptsBlock(b)
  {
    hide S.Layout, S.Decode, S.SizeAll, B.Digits, S.Size;
    var n := HeaderSize(format.anchor);
    HeaderOffsets(format.anchor);
    HeaderFits(format.anchor);
    var s := b[..n];
    var a :| S.HasType(a, format.anchor) && S.Layout(b[33..n], a, format.anchor, false);
    var h := HeaderOf(format.magic.items, format.version, b[24] as nat, format.blockSize, format.userDataSize, a);
    HeaderIsTyped(format, a, b[24] as nat, h);
    SamePlaces(b, n);
    HeaderLayout(s, format.magic.items, format.version, b[24] as nat, format.blockSize, format.userDataSize, a, format.anchor, false);
    S.DecodeIs(HeaderType(format.anchor), s, h);
  }

  /** The main block of a new file: the header without the dirty mark, then the user data, then zeros. */
  lemma {:induction false} NewBlockBytes(format: Format, userData: seq<byte>, allocator: S.Value)
    requires format.Ok() && S.HasType(allocator, format.anchor) && |userData| == format.userDataSize
    ensures var b, n := format.NewMainBlock(userData, allocator), 33 + S.Size(format.anchor);
            && n + |userData| <= |b| && HeaderBytes(b, format) && b[24] == 1 && S.Layout(b[33..n], allocator, format.anchor, true)
            && b[n..n + |userData|] == userData && forall i :: n + |userData| <= i < |b| ==> b[i] == 0
  {
    hide S.Layout, S.Decode, S.Encode, S.SizeAll, B.Digits, S.Size, HeaderBytes;
    var n := HeaderSize(format.anchor);
    HeaderOffsets(format.anchor);
    HeaderFits(format.anchor);
    var h, b := format.NewHeader(allocator), format.NewMainBlock(userData, allocator);
    var s := S.Encode(h, HeaderType(format.anchor));
    assert h == HeaderOf(format.magic.items, format.version, 1, format.blockSize, format.userDataSize, allocator);
    S.EncodeIs(h, HeaderType(format.anchor), s);
    HeaderLayout(s, format.magic.items, format.version, 1, format.blockSize, format.userDataSize, allocator, format.anchor, true);
    assert b[..n] == s && b[24] == s[24] && b[33..n] == s[33..];
    var c := Splice(Zeros(format.blockSize), n, userData);
    assert b[n..n + |userData|] == c[n..n + |userData|] == userData;
    HeaderReadBack(Splice(Zeros(format.blockSize), n, userData), h, format.anchor);
    AcceptedBytes(format, b);
  }

  /** A change of the flags is a change of one byte. */
  lemma {:induction false} FlagsByte(b: Block, h: S.Value, flags: nat, anchor: S.Type)
    requires IsHeader(h, anchor) && HeaderSize(anchor) <= |b| && flags < 256
    ensures 24 < |b| && WriteHeader(b, WithFlags(h, flags, anchor), anchor) == WriteHeader(b, h, anchor)[24 := flags as byte]
  {
    hide S.Layout, S.Decode, S.Encode, S.SizeAll, B.Digits, S.Size;
    var n := HeaderSize(anchor);
    HeaderOffsets(anchor);
    HeaderFits(anchor);
    HeaderTyped(h, anchor);
    var magic, version, size, user, a := h.items[0].items, h.items[1].number, h.items[3].number, h.items[4].number, h.items[5];
    var g := WithFlags(h, flags, anchor);
    assert h.items == [h.items[0], h.items[1], h.items[2], h.items[3], h.items[4], h.items[5]];
    assert h == HeaderOf(magic, version, h.items[2].number, size, user, a) && g == HeaderOf(magic, version, flags, size, user, a);
    var s := S.Encode(h, HeaderType(anchor));
    S.EncodeIs(h, HeaderType(anchor), s);
    HeaderLayout(s, magic, version, h.items[2].number, size, user, a, anchor, true);
    var t := s[24 := flags as byte];
    assert t[20..24] == s[20..24] && t[25..29] == s[25..29] && t[29..33] == s[29..33] && t[33..] == s[33..];
    HeaderLayout(t, magic, version, flags, size, user, a, anchor, true);
    S.EncodeIs(g, HeaderType(anchor), t);
    assert Splice(b, 0, t) == Splice(b, 0, s)[24 := flags as byte];
  }

  lemma HeaderIsTyped(format: Format, allocator: S.Value, flags: nat, h: S.Value)
    requires format.Ok() && S.HasType(allocator, format.anchor) && flags < 256
    requires h == HeaderOf(format.magic.items, format.version, flags, format.blockSize, format.userDataSize, allocator)
    ensures IsHeader(h, format.anchor) && Flags(h, format.anchor) == flags
  {}

  lemma FieldAt(s: seq<byte>, vs: seq<S.Value>, ts: seq<S.Type>, i: nat, at: nat, n: nat, exact: bool)
    requires |vs| == |ts| && i < |ts| && S.SizeAll(ts[..i]) == at && S.Size(ts[i]) == n && at + n <= |s|
    ensures S.FieldIs(s, vs, ts, i, exact) <==> S.Layout(s[at..at + n], vs[i], ts[i], exact)
  {}

  lemma HeaderTyped(h: S.Value, anchor: S.Type)
    requires IsHeader(h, anchor)
    ensures h.List? && |h.items| == 6 && h.items[0].List? && |h.items[0].items| == 20
    ensures forall i :: 0 <= i < 20 ==> S.HasType(h.items[0].items[i], S.UInt(1))
    ensures S.HasType(h.items[1], S.UInt(4)) && S.HasType(h.items[2], S.UInt(1)) && S.HasType(h.items[3], S.UInt(4)) && S.HasType(h.items[4], S.UInt(4))
    ensures h.items[1].Number? && h.items[1].number >= 0 && h.items[3].Number? && h.items[3].number >= 0 && h.items[4].Number? && h.items[4].number >= 0
    ensures h.items[2].Number? && S.HasType(h.items[5], anchor)
  {
    var ts := HeaderType(anchor).fields;
    assert S.HasType(h.items[0], ts[0]) && S.HasType(h.items[1], ts[1]) && S.HasType(h.items[2], ts[2]);
    assert S.HasType(h.items[3], ts[3]) && S.HasType(h.items[4], ts[4]) && S.HasType(h.items[5], ts[5]);
  }

  // ---- The images of a new file.

  /** All images are empty or consist of one of the given versions of the main block. */
  ghost predicate OnlyMain(seen: iset<Image>, versions: set<Block>) {
    forall d :: d in seen ==> d == map[] || (d.Keys == {0} && d[0] in versions)
  }

  lemma OnlyMainStart(seen: iset<Image>)
    requires forall d :: d in seen <==> Remains(map[], map[], d)
    ensures OnlyMain(seen, {})
  {}

  lemma OnlyMainStep(seen: iset<Image>, versions: set<Block>, data: Block, seen': iset<Image>)
    requires OnlyMain(seen, versions) && forall d :: d in seen' <==> d in seen || Remains(map[], map[0 := versions + {data}], d)
    ensures OnlyMain(seen', versions + {data})
  {}

  lemma OnlyMainDetected(format: Format, seen: iset<Image>, versions: set<Block>, data: Block, image: Image)
    requires S.Fits(format.anchor) && OnlyMain(seen, versions + {data}) && !format.AcceptsBlock(data) && image.Keys == {0}
    requires forall v :: v in versions && format.AcceptsBlock(v) ==> v == image[0]
    ensures forall d :: d in seen && format.Passes(d) ==> d == image
  {}

  /** The flags of a block of zeroes say that it was not initialized. */
  lemma ZerosAreRejected(format: Format)
    requires format.Ok()
    ensures !format.AcceptsBlock(Zeros(format.blockSize))
  {
    hide S.Decode, S.Size, S.Fits, S.HasType, S.SizeAll, S.DecodeAll;
    var zeros, n := Zeros(format.blockSize), HeaderSize(format.anchor);
    HeaderFits(format.anchor);
    var h := ReadHeader(zeros, format.anchor);
    if h.Success? {
      ZeroFlags(format.anchor, zeros[..n], h.value);
    }
  }

  lemma ZeroFlags(anchor: S.Type, s: seq<byte>, h: S.Value)
    requires S.Fits(anchor) && |s| == HeaderSize(anchor) && (forall i :: 0 <= i < |s| ==> s[i] == 0)
    requires S.Fits(HeaderType(anchor)) && S.Decode(HeaderType(anchor), s) == Success(h)
    ensures IsHeader(h, anchor) && Flags(h, anchor) == 0
  {
    hide S.SizeAll, S.DecodeAll;
    var ts := HeaderType(anchor).fields;
    S.DecodedField(ts, s, 2);
    var k := S.SizeAll(ts[..2]);
    assert ts[2] == S.UInt(1);
    assert s[k..k + 1] == [s[k]] && s[k] == 0;
    assert B.Decode([0]) == 0;
  }

  // ---- The cache of the engine.

  /** The cache holds blocks of the file; those that differ from the file are in `dirty`. */
  ghost predicate Cached(current: Image, cache: Image, dirty: set<nat>, blockSize: nat) {
    && cache.Keys <= current.Keys && dirty <= cache.Keys
    && (forall b :: b in cache && b !in dirty ==> cache[b] == current[b])
    && (forall b :: b in cache ==> |cache[b]| == blockSize)
  }

  /** What the application sees. */
  ghost function Merged(current: Image, cache: Image): (m: Image)
    ensures m.Keys == current.Keys
  {
    map b | b in current :: if b in cache then cache[b] else current[b]
  }

  lemma MergedAt(current: Image, cache: Image, dirty: set<nat>, bs: nat, b: nat)
    requires Cached(current, cache, dirty, bs) && b in cache
    ensures b in current && |cache[b]| == bs && Merged(current, cache)[b] == cache[b]
  {}

  lemma CacheFetch(current: Image, cache: Image, dirty: set<nat>, bs: nat, b: nat)
    requires Cached(current, cache, dirty, bs) && b in current && b !in cache && |current[b]| == bs
    ensures Cached(current, cache[b := current[b]], dirty, bs) && Merged(current, cache[b := current[b]]) == Merged(current, cache)
  {}

  lemma CacheSet(current: Image, cache: Image, dirty: set<nat>, bs: nat, b: nat, data: Block)
    requires Cached(current, cache, dirty, bs) && b in current && |data| == bs
    ensures Cached(current, cache[b := data], dirty + {b}, bs)
    ensures Merged(current, cache[b := data]) == Merged(current, cache)[b := data]
  {}

  lemma CacheFlush(current: Image, cache: Image, dirty: set<nat>, bs: nat, b: nat)
    requires Cached(current, cache, dirty, bs) && b in cache
    ensures Cached(current[b := cache[b]], cache, dirty - {b}, bs)
    ensures Merged(current[b := cache[b]], cache) == Merged(current, cache)
  {}

  lemma CacheDrop(current: Image, cache: Image, dirty: set<nat>, bs: nat, b: nat)
    requires Cached(current, cache, dirty, bs) && b !in dirty
    ensures Cached(current, cache - {b}, dirty, bs) && Merged(current, cache - {b}) == Merged(current, cache)
  {}

  lemma CacheGrow(current: Image, cache: Image, dirty: set<nat>, bs: nat, b: nat, data: Block)
    requires Cached(current, cache, dirty, bs) && b !in current
    ensures Cached(current[b := data], cache, dirty, bs) && Merged(current[b := data], cache) == Merged(current, cache)[b := data]
  {}

  lemma CacheSame(current: Image, cache: Image, dirty: set<nat>, bs: nat, b: nat)
    requires Cached(current, cache, dirty, bs) && b in cache && b !in dirty
    ensures current == current[b := cache[b]]
  {}

  lemma CacheClean(current: Image, cache: Image, bs: nat)
    requires Cached(current, cache, {}, bs)
    ensures Merged(current, cache) == current
  {}

  lemma CacheEmpty(current: Image, bs: nat)
    ensures Cached(current, map[], {}, bs) && Merged(current, map[]) == current
  {}

  // ---- An open file.

  datatype Error = Corrupted

  /** No image that a crash may leave now would be opened. */
  ghost predicate Guarded(format: Format, durable: Image, pending: map<nat, set<Block>>)
    requires S.Fits(format.anchor)
  {
    && 0 in durable && !format.AcceptsBlock(durable[0])
    && (0 in pending ==> forall c :: c in pending[0] ==> !format.AcceptsBlock(c))
  }

  lemma GuardedFails(format: Format, durable: Image, pending: map<nat, set<Block>>, d: Image)
    requires S.Fits(format.anchor) && Guarded(format, durable, pending) && Remains(durable, pending, d)
    ensures !format.Passes(d)
  {}

  lemma GuardedWrite(format: Format, durable: Image, pending: map<nat, set<Block>>, b: nat, data: Block)
    requires S.Fits(format.anchor) && Guarded(format, durable, pending) && (b == 0 ==> !format.AcceptsBlock(data))
    ensures Guarded(format, durable, pending[b := (if b in pending then pending[b] else {}) + {data}])
  {}

  class File {
    const format: Format
    const syncEnabled: bool
    const disk: Disk
    var isOpen: bool
    var readOnly: bool

    /** The engine's cache and the blocks in it that were changed since they were last written. */
    var cache: Image
    var dirty: set<nat>

    /** The header in memory and whether it differs from the one in the main block. */
    var header: S.Value
    var headerChanged: bool

    /** The image that was opened. */
    ghost var snapshot: Image

    ghost predicate CacheOk()
      reads this, disk
    {
      disk.Valid() && format.Ok() && Cached(disk.current, cache, dirty, format.blockSize)
    }

    /** What the application sees. */
    ghost function View(): Image
      requires CacheOk()
      reads this, disk
    {
      Merged(disk.current, cache)
    }

    ghost predicate HeaderOk()
      reads this, disk
    {
      && CacheOk() && 0 in cache && |cache[0]| == format.blockSize && IsHeader(header, format.anchor)
      && (!headerChanged ==> ReadHeader(cache[0], format.anchor) == Success(header))
    }

    /** While a file is open for writing, no image would be opened that a crash may leave. */
    ghost predicate Valid()
      reads this, disk
    {
      && disk.Valid() && format.Ok()
      && (isOpen ==> HeaderOk() && format.AcceptsClean(header))
      && (isOpen && !readOnly ==> !format.AcceptsBlock(cache[0]) && IsDirty(Flags(header, format.anchor)) && Safe())
      && (isOpen && readOnly ==> dirty == {} && !headerChanged)
    }

    ghost predicate Safe()
      requires format.Ok()
      reads this, disk
    {
      syncEnabled ==> Guarded(format, disk.durable, disk.pending) && Detected()
    }

    /** Whatever a crash left behind so far is rejected or is the image that was opened. */
    ghost predicate Detected()
      requires format.Ok()
      reads this, disk
    {
      forall d :: d in disk.seen && format.Passes(d) ==> d == snapshot
    }

    constructor (format: Format, syncEnabled: bool, disk: Disk)
      requires disk.Valid() && format.Ok()
      ensures Valid() && !isOpen && this.format == format && this.syncEnabled == syncEnabled && this.disk == disk
    {
      this.format, this.syncEnabled, this.disk := format, syncEnabled, disk;
      isOpen, readOnly, cache, dirty, header, headerChanged, snapshot := false, false, map[], {}, S.Nothing, false, map[];
    }

    // ---- The engine.

    /** Brings a block into the cache. */
    method Fetch(b: nat)
      requires CacheOk() && b in disk.current && |disk.current[b]| == format.blockSize
      modifies `cache
      ensures CacheOk() && b in cache && View() == old(View())
      ensures cache == old(cache)[b := cache[b]]
    {
      hide Cached, Merged, Disk.Valid, Format.Ok;
      if b !in cache {
        CacheFetch(disk.current, cache, dirty, format.blockSize, b);
        cache := cache[b := disk.current[b]];
      }
    }

    /** Writes one changed block to the file. */
    method FlushBlock(b: nat)
      requires CacheOk() && b in dirty && b in cache
      modifies `dirty, disk
      ensures CacheOk() && dirty == old(dirty) - {b} && View() == old(View())
      ensures disk.durable == old(disk.durable) && disk.current == old(disk.current)[b := cache[b]]
      ensures disk.pending == old(disk.pending)[b := (if b in old(disk.pending) then old(disk.pending)[b] else {}) + {cache[b]}]
      ensures forall d :: d in disk.seen <==> d in old(disk.seen) || Remains(disk.durable, disk.pending, d)
    {
      hide Remains, Cached, Merged, Disk.Valid, Format.Ok;
      CacheFlush(disk.current, cache, dirty, format.blockSize, b);
      disk.Write(b, cache[b]);
      dirty := dirty - {b};
    }

    /** The same while a file is open for writing. */
    method FlushGuarded(b: nat)
      requires CacheOk() && b in dirty && b in cache && Safe() && (b == 0 ==> !format.AcceptsBlock(cache[0]))
      modifies `dirty, disk
      ensures CacheOk() && dirty == old(dirty) - {b} && View() == old(View()) && disk.durable == old(disk.durable) && Safe()
      ensures b in disk.pending && cache[b] in disk.pending[b]
    {
      hide Remains, Format.AcceptsBlock, Format.Passes, Guarded, Disk.Valid, Merged, Cached, S.Fits, HeaderSize;
      FlushBlock(b);
      if syncEnabled {
        GuardedWrite(format, disk.durable, old(disk.pending), b, cache[b]);
        forall d | d in disk.seen && format.Passes(d) ensures d == snapshot {
          if Remains(disk.durable, disk.pending, d) {
            GuardedFails(format, disk.durable, disk.pending, d);
          }
        }
      }
    }

    /** Writes all changed blocks to the file. */
    method FlushEngine()
      requires CacheOk() && Safe() && (0 in cache ==> !format.AcceptsBlock(cache[0]))
      modifies `dirty, disk
      ensures CacheOk() && dirty == {} && View() == old(View()) && disk.current == View() && disk.durable == old(disk.durable) && Safe()
    {
      hide Remains, Format.AcceptsBlock, Format.Passes, Guarded, Disk.Valid, Merged, S.Fits, HeaderSize;
      while dirty != {}
        invariant CacheOk() && View() == old(View()) && disk.durable == old(disk.durable) && Safe()
        decreases dirty
      {
        var b :| b in dirty;
        FlushGuarded(b);
      }
      CacheClean(disk.current, cache, format.blockSize);
    }

    // ---- The header.

    /** Puts the header into the main block if it was changed. */
    method SyncHeader()
      requires HeaderOk()
      modifies `cache, `dirty, `headerChanged
      ensures HeaderOk() && !headerChanged && cache.Keys == old(cache).Keys
      ensures View() == old(View())[0 := cache[0]] && ReadHeader(cache[0], format.anchor) == Success(header)
      ensures cache[0] == if old(headerChanged) then WriteHeader(old(cache)[0], header, format.anchor) else old(cache)[0]
      ensures dirty == if old(headerChanged) then old(dirty) + {0} else old(dirty)
    {
      hide ReadHeader, WriteHeader, HeaderSize, S.Fits, S.HasType, Cached, Merged, Disk.Valid;
      MergedAt(disk.current, cache, dirty, format.blockSize, 0);
      if headerChanged {
        HeaderReadBack(cache[0], header, format.anchor);
        CacheSet(disk.current, cache, dirty, format.blockSize, 0, WriteHeader(cache[0], header, format.anchor));
        cache := cache[0 := WriteHeader(cache[0], header, format.anchor)];
        dirty := dirty + {0};
        headerChanged := false;
      }
    }

    method SetFlags(flags: nat)
      requires HeaderOk() && flags < 256
      modifies `header, `headerChanged
      ensures HeaderOk() && headerChanged && header == WithFlags(old(header), flags, format.anchor)
    {
      header := WithFlags(header, flags, format.anchor);
      headerChanged := true;
    }

    /** Writes the main block to the file, with the current header. */
    method FlushMainBlock()
      requires HeaderOk()
      modifies `cache, `dirty, `headerChanged, disk
      ensures HeaderOk() && !headerChanged && 0 !in dirty && dirty == old(dirty) - {0} && cache.Keys == old(cache).Keys
      ensures View() == old(View())[0 := cache[0]] && disk.durable == old(disk.durable) && disk.current == old(disk.current)[0 := cache[0]]
      ensures cache[0] == if old(headerChanged) then WriteHeader(old(cache)[0], header, format.anchor) else old(cache)[0]
      ensures old(headerChanged) ==>
                && disk.pending == old(disk.pending)[0 := (if 0 in old(disk.pending) then old(disk.pending)[0] else {}) + {cache[0]}]
                && (forall d :: d in disk.seen <==> d in old(disk.seen) || Remains(disk.durable, disk.pending, d))
    {
      hide ReadHeader, WriteHeader, HeaderSize, S.Fits, S.HasType, Remains, Guarded, Format.AcceptsBlock, Format.Passes, Cached, Merged, Disk.Valid;
      SyncHeader();
      if 0 in dirty {
        FlushBlock(0);
      } else {
        CacheSame(disk.current, cache, dirty, format.blockSize, 0);
      }
    }

    // ---- Opening and closing.

    /** Marks a file that was just opened as dirty, in the file itself. */
    method MarkDirty()
      requires HeaderOk() && isOpen && !readOnly && format.AcceptsClean(header) && dirty == {}
      requires disk.pending == map[] && snapshot == disk.current == disk.durable && forall d :: d in disk.seen ==> d == snapshot
      modifies `header, `headerChanged, `cache, `dirty, disk
      ensures Valid() && View() == old(View())[0 := View()[0]] && (!syncEnabled ==> disk.durable == old(disk.durable))
    {
      hide Remains, Format.Accepts, Format.AcceptsClean, ReadHeader, WriteHeader, HeaderSize, S.Fits, S.HasType, Flags, WithFlags, IsDirty, SetDirty, ClearDirty, Cached, Merged, Disk.Valid;
      MergedAt(disk.current, cache, dirty, format.blockSize, 0);
      FlagsAreByte(header, format.anchor);
      SetFlags(SetDirty(Flags(header, format.anchor)));
      DirtyStaysClean(format, old(header), header);
      FlushMainBlock();
      DirtyIsRejected(format, cache[0], header);
      ghost var none: set<Block> := {};
      assert none + {cache[0]} == {cache[0]};
      assert disk.pending == map[0 := {cache[0]}];
      forall d | d in disk.seen && format.Passes(d) ensures d == snapshot {
        if Remains(disk.durable, disk.pending, d) {
          OnePending(disk.durable, 0, cache[0], d);
        }
      }
      if syncEnabled {
        disk.Sync();
      }
    }

    /** Starts with an empty cache and reads the header. */
    method LoadHeader() returns (r: Outcome<Error>)
      requires Valid() && !isOpen && disk.pending == map[]
      requires forall b :: b in disk.current ==> |disk.current[b]| == format.blockSize
      modifies `snapshot, `cache, `dirty, `header, `headerChanged, disk`seen
      ensures disk.Valid() && snapshot == disk.current == disk.durable && (forall d :: d in disk.seen ==> d == snapshot)
      ensures r.Pass? <==> disk.rest == 0 && format.Passes(disk.current)
      ensures r.Pass? ==> HeaderOk() && format.AcceptsClean(header) && dirty == {} && !headerChanged && View() == disk.current
    {
      hide Remains, Format.Accepts, Format.AcceptsClean, ReadHeader, HeaderSize, S.Fits, S.HasType, Cached, Merged, Disk.Valid;
      snapshot := disk.current;
      disk.Watch();
      StartImage();
      cache, dirty, headerChanged := map[], {}, false;
      CacheEmpty(disk.current, format.blockSize);
      if disk.rest != 0 || 0 !in disk.current {
        return Fail(Corrupted);
      }
      Fetch(0);
      MergedAt(disk.current, cache, dirty, format.blockSize, 0);
      var h := ReadHeader(cache[0], format.anchor);
      if h.Failure? || !format.Accepts(h.value) {
        return Fail(Corrupted);
      }
      header := h.value;
      AcceptedIsClean(format, header);
      return Pass;
    }

    lemma StartImage()
      requires disk.Valid() && disk.pending == map[] && forall d :: d in disk.seen <==> Remains(disk.durable, disk.pending, d)
      ensures disk.durable == disk.current && forall d :: d in disk.seen ==> d == disk.current
    {}

    /**
    Opens an existing file of whole blocks if its header is accepted. For writing, the header is marked as dirty
    before anything else can change.
    */
    method Open(readOnly: bool) returns (r: Outcome<Error>)
      requires Valid() && !isOpen && disk.pending == map[]
      requires forall b :: b in disk.current ==> |disk.current[b]| == format.blockSize
      modifies this, disk
      ensures Valid() && snapshot == old(disk.current)
      ensures r.Pass? <==> disk.rest == 0 && format.Passes(old(disk.current))
      ensures r.Pass? <==> disk.rest == 0 && 0 in old(disk.current) && HeaderBytes(old(disk.current)[0], format)
      ensures isOpen == r.Pass? && (isOpen ==> this.readOnly == readOnly)
      ensures isOpen ==> View() == old(disk.current)[0 := View()[0]]
      ensures isOpen && readOnly ==> View() == old(disk.current)
      ensures !syncEnabled ==> disk.durable == old(disk.durable)
      ensures r.Fail? || readOnly ==> disk.current == old(disk.current) && disk.durable == old(disk.durable) && disk.pending == map[]
    {
      hide Remains, Guarded, Format.Passes, Format.AcceptsBlock, Format.AcceptsClean, ReadHeader, HeaderBytes, S.Fits, S.HasType, Disk.Valid, Cached, Merged;
      PassesBytes(format, disk.current);
      r := LoadHeader();
      if r.Fail? {
        return;
      }
      isOpen, this.readOnly := true, readOnly;
      MergedAt(disk.current, cache, dirty, format.blockSize, 0);
      if !readOnly {
        MarkDirty();
      }
    }

    /**
    Creates a new file in an empty one. The first block is written once as a complete new file and
    then again with the dirty mark.
    */
    method Create(userData: seq<byte>, anchor: S.Value) returns (r: Outcome<Error>)
      requires Valid() && !isOpen && disk.pending == map[] && S.HasType(anchor, format.anchor) && |userData| == format.userDataSize
      modifies this, disk
      ensures Valid() && (r.Pass? <==> old(disk.current) == map[] && disk.rest == 0) && isOpen == r.Pass?
      ensures r.Fail? ==> disk.current == old(disk.current)
      ensures isOpen ==> !readOnly && snapshot == map[0 := format.NewMainBlock(userData, anchor)]
      ensures isOpen ==> View() == map[0 := WriteHeader(snapshot[0], header, format.anchor)]
      ensures isOpen ==> header == Marked(format.NewHeader(anchor), format.anchor)
    {
      hide Remains, Guarded, Format.Passes, Format.AcceptsBlock, Format.AcceptsClean, Format.NewHeader, Format.NewMainBlock,
           ReadHeader, WriteHeader, S.Fits, S.HasType, Disk.Valid, Cached, Merged, HeaderSize, OnlyMain;
      if disk.current != map[] || disk.rest != 0 {
        return Fail(Corrupted);
      }
      WriteNewMain(userData, anchor);
      isOpen, readOnly := true, false;
      ZerosAreRejected(format);
      MarkNewDirty({Zeros(format.blockSize), cache[0]});
      return Pass;
    }

    /** Extends an empty file by its first block. */
    method GrowNew()
      requires disk.Valid() && disk.current == map[] && disk.pending == map[]
      modifies disk
      ensures disk.Valid() && disk.current == map[0 := Zeros(format.blockSize)] && disk.durable == map[]
      ensures disk.pending == map[0 := {Zeros(format.blockSize)}] && OnlyMain(disk.seen, {Zeros(format.blockSize)})
    {
      hide Remains, OnlyMain;
      var zeros := Zeros(format.blockSize);
      ghost var none: set<Block> := {};
      disk.Watch();
      OnlyMainStart(disk.seen);
      ghost var seen0 := disk.seen;
      disk.Write(0, zeros);
      assert none + {zeros} == {zeros};
      OnlyMainStep(seen0, none, zeros, disk.seen);
    }

    /** Writes the main block of a new file. */
    method WriteNewMain(userData: seq<byte>, anchor: S.Value)
      requires Valid() && !isOpen && disk.current == map[] && disk.pending == map[]
      requires S.HasType(anchor, format.anchor) && |userData| == format.userDataSize
      modifies `snapshot, `cache, `dirty, `header, `headerChanged, disk
      ensures HeaderOk() && header == format.NewHeader(anchor) && dirty == {} && !headerChanged
      ensures snapshot == cache == disk.current == map[0 := format.NewMainBlock(userData, anchor)]
      ensures disk.durable == map[] && disk.pending == map[0 := {Zeros(format.blockSize), cache[0]}]
      ensures OnlyMain(disk.seen, {Zeros(format.blockSize), cache[0]})
    {
      hide Remains, Guarded, Format.Accepts, Format.Passes, Format.AcceptsBlock, Format.AcceptsClean, Format.NewHeader,
           ReadHeader, WriteHeader, S.Fits, S.HasType, Cached, Merged, HeaderSize, OnlyMain, Disk.Valid;
      var zeros, main := Zeros(format.blockSize), format.NewMainBlock(userData, anchor);
      snapshot := map[0 := main];
      GrowNew();
      ghost var seen1 := disk.seen;
      CacheEmpty(disk.current, format.blockSize);
      CacheSet(disk.current, map[], {}, format.blockSize, 0, main);
      header, headerChanged := format.NewHeader(anchor), false;
      HeaderReadBack(Splice(zeros, HeaderSize(format.anchor), userData), header, format.anchor);
      cache, dirty := map[0 := main], {0};
      assert map[][0 := main] == cache && {} + {0} == dirty;
      FlushBlock(0);
      assert {zeros} + {main} == {zeros, main} && dirty == {};
      assert disk.pending == map[0 := {zeros} + {main}];
      OnlyMainStep(seen1, {zeros}, main, disk.seen);
      CacheClean(disk.current, cache, format.blockSize);
    }

    /** Marks a new file as dirty. The versions of the main block that were written before are `versions`. */
    method MarkNewDirty(ghost versions: set<Block>)
      requires HeaderOk() && isOpen && !readOnly && format.Accepts(header) && dirty == {} && !headerChanged
      requires disk.durable == map[] && disk.pending == map[0 := versions] && OnlyMain(disk.seen, versions)
      requires snapshot == cache == disk.current && cache.Keys == {0}
      requires forall v :: v in versions && format.AcceptsBlock(v) ==> v == cache[0]
      modifies `header, `headerChanged, `cache, `dirty, disk
      ensures Valid() && View() == map[0 := WriteHeader(snapshot[0], header, format.anchor)]
      ensures header == Marked(old(header), format.anchor)
    {
      hide Remains, Format.Accepts, Format.AcceptsClean, ReadHeader, WriteHeader, HeaderSize, S.Fits, S.HasType, Flags, WithFlags, IsDirty, SetDirty, ClearDirty, Cached, Merged, Disk.Valid, OnlyMain;
      FlagsAreByte(header, format.anchor);
      AcceptedIsClean(format, header);
      SetFlags(SetDirty(Flags(header, format.anchor)));
      DirtyStaysClean(format, old(header), header);
      ghost var seen0 := disk.seen;
      FlushMainBlock();
      DirtyIsRejected(format, cache[0], header);
      assert disk.pending == map[0 := versions + {cache[0]}];
      OnlyMainStep(seen0, versions, cache[0], disk.seen);
      OnlyMainDetected(format, disk.seen, versions, cache[0], snapshot);
      MergedAt(disk.current, cache, dirty, format.blockSize, 0);
      assert View() == map[0 := cache[0]];
      if syncEnabled {
        disk.Sync();
      }
    }

    // ---- While the file is open for writing.

    /** The application changes a block. The main block is not its to change. */
    method WriteBlock(b: nat, data: Block)
      requires Valid() && isOpen && !readOnly && b != 0 && b in disk.current && |data| == format.blockSize
      modifies `cache, `dirty
      ensures Valid() && View() == old(View())[b := data] && b in dirty && b in cache && cache[b] == data
    {
      hide Remains, Guarded, Format.Passes, Format.AcceptsBlock, Format.AcceptsClean, ReadHeader, S.Fits, S.HasType, Cached, Merged, Disk.Valid;
      CacheSet(disk.current, cache, dirty, format.blockSize, b, data);
      cache := cache[b := data];
      dirty := dirty + {b};
    }

    /** Changes the application's data behind the header. */
    method SetUserData(data: seq<byte>)
      requires Valid() && isOpen && !readOnly && |data| == format.userDataSize
      modifies `cache, `dirty
      ensures Valid() && HeaderSize(format.anchor) + |data| <= |old(View())[0]|
      ensures View() == old(View())[0 := Splice(old(View())[0], HeaderSize(format.anchor), data)]
    {
      hide Remains, Guarded, Format.Passes, Format.AcceptsClean, Format.Accepts, ReadHeader, S.Fits, S.HasType, Cached, Merged, Disk.Valid, HeaderSize;
      MergedAt(disk.current, cache, dirty, format.blockSize, 0);
      CacheSet(disk.current, cache, dirty, format.blockSize, 0, Splice(cache[0], HeaderSize(format.anchor), data));
      UserDataKeepsHeader(cache[0], HeaderSize(format.anchor), data, format.anchor);
      cache := cache[0 := Splice(cache[0], HeaderSize(format.anchor), data)];
      dirty := dirty + {0};
    }

    /** The allocator changes its anchor, which is a part of the header. */
    method SetAnchor(anchor: S.Value)
      requires Valid() && isOpen && !readOnly && S.HasType(anchor, format.anchor)
      modifies `header, `headerChanged
      ensures Valid() && View() == old(View()) && headerChanged && header.List? && header == S.List(old(header).items[5 := anchor])
    {
      hide Remains, Guarded, Format.Passes, Format.AcceptsBlock, ReadHeader, S.Fits, Cached, Merged, Disk.Valid, HeaderSize;
      header := S.List(header.items[5 := anchor]);
      headerChanged := true;
    }

    /** Appends `n` blocks of zeroes to a file with `size` blocks. */
    method Grow(size: nat, n: nat)
      requires Valid() && isOpen && !readOnly && forall b :: b in disk.current <==> b < size
      modifies disk
      ensures Valid() && (forall b :: b in disk.current <==> b < size + n)
      ensures forall b :: b in old(View()) ==> View()[b] == old(View())[b]
    {
      hide Remains, Guarded, Format.Passes, Format.AcceptsBlock, Format.AcceptsClean, ReadHeader, S.Fits, S.HasType, Disk.Valid, HeaderSize, File.Safe, Cached, Merged;
      var i := 0;
      while i < n
        invariant i <= n && Valid() && isOpen && (forall b :: b in disk.current <==> b < size + i)
        invariant forall b :: b in old(View()) ==> View()[b] == old(View())[b]
      {
        AppendBlock(size + i);
        i := i + 1;
      }
    }

    method AppendBlock(b: nat)
      requires Valid() && isOpen && !readOnly && b !in disk.current
      modifies disk
      ensures Valid() && disk.current == old(disk.current)[b := Zeros(format.blockSize)]
      ensures View() == old(View())[b := Zeros(format.blockSize)]
    {
      hide Remains, Guarded, Format.Passes, Format.AcceptsBlock, Format.AcceptsClean, ReadHeader, S.Fits, S.HasType, Disk.Valid, HeaderSize, Cached, Merged;
      MergedAt(disk.current, cache, dirty, format.blockSize, 0);
      CacheGrow(disk.current, cache, dirty, format.blockSize, b, Zeros(format.blockSize));
      disk.Write(b, Zeros(format.blockSize));
      if syncEnabled {
        GuardedWrite(format, disk.durable, old(disk.pending), b, Zeros(format.blockSize));
        forall d | d in disk.seen && format.Passes(d) ensures d == snapshot {
          if Remains(disk.durable, disk.pending, d) {
            GuardedFails(format, disk.durable, disk.pending, d);
          }
        }
      }
    }

    /** The cache makes room: a block other than the main block, which stays pinned, is written and dropped. */
    method Evict(b: nat)
      requires Valid() && isOpen && !readOnly && b != 0 && b in cache
      modifies `cache, `dirty, disk
      ensures Valid() && View() == old(View()) && b !in cache && disk.durable == old(disk.durable)
      ensures b in old(dirty) ==> b in disk.pending && old(cache)[b] in disk.pending[b]
    {
      hide Remains, Guarded, Format.Passes, Format.AcceptsBlock, Format.AcceptsClean, ReadHeader, S.Fits, S.HasType, Cached, Merged, Disk.Valid;
      if b in dirty {
        FlushGuarded(b);
      }
      CacheDrop(disk.current, cache, dirty, format.blockSize, b);
      cache := cache - {b};
    }

    /** Writes everything to the file and, if enabled, makes it durable. */
    method Flush()
      requires Valid() && isOpen
      modifies `cache, `dirty, `headerChanged, disk
      ensures Valid() && (!readOnly ==> !headerChanged && dirty == {} && disk.current == View())
      ensures View() == old(View())[0 := cache[0]] && cache.Keys == old(cache).Keys
      ensures cache[0] == if old(headerChanged) then WriteHeader(old(cache)[0], header, format.anchor) else old(cache)[0]
      ensures !readOnly && syncEnabled ==> disk.durable == disk.current && disk.pending == map[]
    {
      hide Remains, Format.Passes, Format.AcceptsBlock, Format.AcceptsClean, ReadHeader, WriteHeader, S.Fits, S.HasType, Cached, Merged, Disk.Valid, HeaderSize;
      MergedAt(disk.current, cache, dirty, format.blockSize, 0);
      if !readOnly {
        SyncHeader();
        DirtyIsRejected(format, cache[0], header);
        FlushEngine();
        if syncEnabled {
          disk.Sync();
        }
      }
    }

    /** The complete state: what the application sees, with an up to date header that is not marked as dirty. */
    ghost function Complete(): Image
      requires Valid() && isOpen && !readOnly
      reads this, disk
    {
      MergedAt(disk.current, cache, dirty, format.blockSize, 0);
      View()[0 := WriteHeader(View()[0], Unmarked(header, format.anchor), format.anchor)]
    }

    /**
    Closes the file. If every write was synced, then whatever a crash could have left behind at any
    point since the file was opened is rejected, or it is the image that was opened, or it is the
    complete state at the end.
    */
    method Close()
      requires Valid()
      modifies this, disk
      ensures Valid() && !isOpen
      ensures !old(isOpen) || old(readOnly) ==> disk.current == old(disk.current)
      ensures old(isOpen && !readOnly) ==> disk.current == old(Complete()) && format.Passes(disk.current)
      ensures old(isOpen && !readOnly) && syncEnabled ==>
                && disk.durable == disk.current && disk.pending == map[]
                && forall d :: d in disk.seen && format.Passes(d) ==> d == old(snapshot) || d == old(Complete())
    {
      hide Remains, Guarded, Format.Accepts, Format.AcceptsClean, ReadHeader, WriteHeader, HeaderSize, S.Fits, S.HasType, Flags, WithFlags, IsDirty, SetDirty, ClearDirty, Cached, Merged, Disk.Valid, Format.Passes, Format.AcceptsBlock, File.Safe;
      if !isOpen {
        return;
      }
      if !readOnly {
        CloseWriter();
      }
      isOpen, cache, dirty, headerChanged := false, map[], {}, false;
    }

    method CloseWriter()
      requires Valid() && isOpen && !readOnly
      modifies `cache, `dirty, `headerChanged, `header, disk
      ensures disk.Valid() && disk.current == old(Complete()) && format.Passes(disk.current)
      ensures syncEnabled ==>
                && disk.durable == disk.current && disk.pending == map[]
                && forall d :: d in disk.seen && format.Passes(d) ==> d == snapshot || d == old(Complete())
    {
      hide Remains, Guarded, Format.Accepts, Format.AcceptsClean, ReadHeader, WriteHeader, HeaderSize, S.Fits, S.HasType, Flags, WithFlags, IsDirty, SetDirty, ClearDirty,
           Disk.Valid, Format.Passes, Format.AcceptsBlock, File.Safe, Cached, Merged;
      MergedAt(disk.current, cache, dirty, format.blockSize, 0);
      ghost var main0, h := cache[0], header;
      FlagsAreByte(header, format.anchor);
      Flush();
      ghost var main1 := cache[0];
      MarkClean();
      WriteTwice(main0, main1, h, Unmarked(h, format.anchor), old(headerChanged), format.anchor);
    }

    /** The last step of closing: everything is in the file, and the header is marked as clean. */
    method MarkClean()
      requires Valid() && isOpen && !readOnly && !headerChanged && dirty == {} && disk.current == View()
      requires syncEnabled ==> disk.durable == disk.current && disk.pending == map[]
      modifies `cache, `dirty, `headerChanged, `header, disk
      ensures disk.Valid() && format.Passes(disk.current)
      ensures disk.current == old(View())[0 := WriteHeader(old(cache)[0], Unmarked(old(header), format.anchor), format.anchor)]
      ensures syncEnabled ==>
                && disk.durable == disk.current && disk.pending == map[]
                && forall d :: d in disk.seen && format.Passes(d) ==> d == snapshot || d == disk.current
    {
      hide Remains, Guarded, Format.Accepts, Format.AcceptsClean, ReadHeader, WriteHeader, HeaderSize, S.Fits, S.HasType, Flags, WithFlags, IsDirty, SetDirty, ClearDirty, Cached, Merged, Disk.Valid;
      FlagsAreByte(header, format.anchor);
      SetFlags(ClearDirty(Flags(header, format.anchor)));
      FlushMainBlock();
      CleanIsAccepted(format, cache[0], header, old(header));
      assert dirty == {};
      CacheClean(disk.current, cache, format.blockSize);
      MergedAt(old(disk.current), old(cache), old(dirty), format.blockSize, 0);
      if syncEnabled {
        ghost var none: set<Block> := {};
        assert none + {cache[0]} == {cache[0]};
        assert disk.pending == map[0 := {cache[0]}];
        forall d | d in disk.seen && format.Passes(d) ensures d == snapshot || d == disk.current {
          if Remains(disk.durable, disk.pending, d) {
            OnePending(disk.durable, 0, cache[0], d);
          }
        }
        disk.Sync();
      }
    }
  }

  /**
  Without sync the guarantee does not hold, for any file and any change of a block: a crash after the
  change was written may leave an image that is opened although it is not the one that was opened before.
  */
  method MixtureWithoutSync(format: Format, image: Image, b: nat, data: Block) returns (file: File)
    requires format.Ok() && format.Passes(image) && (forall c :: c in image ==> |image[c]| == format.blockSize)
    requires b != 0 && b in image && |data| == format.blockSize && data != image[b]
    ensures file.Valid() && file.snapshot == image != image[b := data]
    ensures image[b := data] in file.disk.seen && format.Passes(image[b := data])
  {
    hide Guarded, Format.Passes, Format.AcceptsBlock, Format.AcceptsClean, ReadHeader, S.Fits, S.HasType, Cached, Merged, HeaderSize, Remains, File.Safe, Disk.Valid;
    var disk := new Disk(image, 0);
    file := new File(format, false, disk);
    var r := file.Open(false);
    MergedAt(disk.current, file.cache, file.dirty, format.blockSize, 0);
    file.WriteBlock(b, data);
    file.Evict(b);
    OneChange(format, disk, image, b, data);
  }

  lemma OneChange(format: Format, disk: Disk, image: Image, b: nat, data: Block)
    requires format.Ok() && format.Passes(image) && b != 0 && b in image && data != image[b]
    requires disk.Valid() && disk.durable == image && b in disk.pending && data in disk.pending[b]
    ensures image[b := data] in disk.seen && format.Passes(image[b := data]) && image[b := data] != image
  {
    hide Format.AcceptsBlock;
    assert Remains(disk.durable, disk.pending, image[b := data]);
    assert image[b := data][b] == data;
  }

  /** Marking a header as dirty changes nothing else about it. */
  lemma DirtyStaysClean(format: Format, h: S.Value, h': S.Value)
    requires IsHeader(h, format.anchor) && format.AcceptsClean(h) && h' == Marked(h, format.anchor)
    ensures format.AcceptsClean(h') && IsDirty(Flags(h', format.anchor))
  {}

  lemma DirtyIsRejected(format: Format, b: Block, h: S.Value)
    requires S.Fits(format.anchor) && HeaderSize(format.anchor) <= |b| && ReadHeader(b, format.anchor) == Success(h)
    requires IsHeader(h, format.anchor) && IsDirty(Flags(h, format.anchor))
    ensures !format.AcceptsBlock(b)
  {}

  lemma CleanIsAccepted(format: Format, b: Block, h: S.Value, before: S.Value)
    requires S.Fits(format.anchor) && |b| == format.blockSize && HeaderSize(format.anchor) <= |b|
    requires IsHeader(before, format.anchor) && format.AcceptsClean(before)
    requires h == Unmarked(before, format.anchor) && ReadHeader(b, format.anchor) == Success(h)
    ensures format.AcceptsBlock(b)
  {}

  /** Only the last header that is written to a block matters. */
  lemma WriteTwice(b: Block, b': Block, h: S.Value, h': S.Value, changed: bool, anchor: S.Type)
    requires IsHeader(h, anchor) && IsHeader(h', anchor) && HeaderSize(anchor) <= |b|
    requires b' == if changed then WriteHeader(b, h, anchor) else b
    ensures WriteHeader(b', h', anchor) == WriteHeader(b, h', anchor)
  {}

  lemma AcceptedIsClean(format: Format, h: S.Value)
    requires IsHeader(h, format.anchor) && format.Accepts(h)
    ensures format.AcceptsClean(h)
  {}
}
