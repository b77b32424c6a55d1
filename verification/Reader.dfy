/**
  The .rdnsz v2 file: framing, the fixed header, `Scan` and `ReadHeader`
  (internal/store/format.go, internal/store/reader.go).
  */
module Reader {
  import opened Model
  import opened Bytes
  import opened Block

  const HEADER_SIZE := 128
  const FRAME_HEADER := 12
  const BLOCK_RECS := 65536

  /** The largest payload a block of resolver-sized names can have. */
  const MAX_RAW := BLOCK_RECS * MAX_RECORD_BYTES

  /**
    The compressor as an abstract pair. A valid one is lossless and does not
    inflate a payload of at most MAX_RAW (about half of 2^32) beyond 32 bits.
    */
  datatype Codec = Codec(compress: seq<byte> -> seq<byte>, decompress: seq<byte> -> Option<seq<byte>>) {
    ghost predicate Valid() {
      && (forall x: seq<byte> :: decompress(compress(x)) == Some(x))
      && (forall x: seq<byte> | |x| <= MAX_RAW :: |compress(x)| < U32)
    }
  }

  // ----- framing -----

  /** u32 compressedLen | u32 recordCount | u32 rawLen | compressed payload */
  function FrameBytes(codec: Codec, block: seq<Record>): (f: seq<byte>)
    ensures |f| >= FRAME_HEADER
  {
    var raw := EncodeBlock(0, block);
    var comp := codec.compress(raw);
    PutLE(|comp| % U32, 4) + PutLE(|block| % U32, 4) + PutLE(|raw| % U32, 4) + comp
  }

  function Frames(codec: Codec, blocks: seq<seq<Record>>): seq<byte> {
    if blocks == [] then []
    else Frames(codec, blocks[..|blocks| - 1]) + FrameBytes(codec, blocks[|blocks| - 1])
  }

  /** The length fields of the block are exact: nothing wrapped at 32 bits. */
  predicate Fits(codec: Codec, block: seq<Record>) {
    var raw := EncodeBlock(0, block);
    |raw| < U32 && |codec.compress(raw)| < U32
  }

  /** The records a scan delivers for these blocks. */
  function Delivered(blocks: seq<seq<Record>>): seq<Rec> {
    if blocks == [] then [] else Delivered(blocks[..|blocks| - 1]) + StoredAll(blocks[|blocks| - 1])
  }

  // ----- scanning -----

  datatype ScanEnd = Complete | TruncatedTail | ShortHeader | DecompressFailed | BlockFailed(err: BlockError)

  /** Everything the callback saw, and how the scan ended. */
  datatype Scanned = Scanned(recs: seq<Rec>, end: ScanEnd)

  function CompLen(b: seq<byte>): nat
    requires |b| >= FRAME_HEADER
  {
    GetLE(b[..4])
  }

  function ScanFrames(codec: Codec, b: seq<byte>): Scanned
    decreases |b|
  {
    if b == [] then Scanned([], Complete)
    else if |b| < FRAME_HEADER then Scanned([], TruncatedTail)
    else
      var next := FRAME_HEADER + CompLen(b);
      if |b| < next then Scanned([], TruncatedTail)
      else
        match codec.decompress(b[FRAME_HEADER..next])
        case None => Scanned([], DecompressFailed)
        case Some(raw) =>
          var p := DecodeFrom(raw, 0, 0);
          if p.err.Some? then Scanned(p.recs, BlockFailed(p.err.value))
          else Prepend(p.recs, ScanFrames(codec, b[next..]))
  }

  function Prepend(recs: seq<Rec>, s: Scanned): Scanned {
    Scanned(recs + s.recs, s.end)
  }

  function ScanFile(codec: Codec, file: seq<byte>): Scanned {
    if |file| < HEADER_SIZE then Scanned([], ShortHeader) else ScanFrames(codec, file[HEADER_SIZE..])
  }

  lemma PrependNothing(s: Scanned)
    ensures Prepend([], s) == s
  {
    assert [] + s.recs == s.recs;
  }

  lemma PrependTwice(a: seq<Rec>, b: seq<Rec>, s: Scanned)
    ensures Prepend(a, Prepend(b, s)) == Prepend(a + b, s)
  {
    assert a + (b + s.recs) == a + b + s.recs;
  }

  /** `Scan`: the loop over frames of a file held as bytes. */
  method Scan(codec: Codec, file: seq<byte>) returns (recs: seq<Rec>, end: ScanEnd)
    ensures Scanned(recs, end) == ScanFile(codec, file)
  {
    hide DecodeFrom, GetLE;
    recs := [];
    if |file| < HEADER_SIZE {
      return [], ShortHeader;
    }
    var pos := HEADER_SIZE;
    PrependNothing(ScanFrames(codec, file[pos..]));
    while true
      invariant HEADER_SIZE <= pos <= |file|
      invariant ScanFile(codec, file) == Prepend(recs, ScanFrames(codec, file[pos..]))
      decreases |file| - pos
    {
      var rest := file[pos..];
      assert recs + [] == recs;
      if rest == [] {
        return recs, Complete;
      }
      if |rest| < FRAME_HEADER {
        return recs, TruncatedTail;
      }
      var compLen := GetLE(rest[..4]);
      if |rest| - FRAME_HEADER < compLen {
        return recs, TruncatedTail;
      }
      var raw := codec.decompress(rest[FRAME_HEADER..FRAME_HEADER + compLen]);
      if raw.None? {
        return recs, DecompressFailed;
      }
      var got, err := DecodeBlock(raw.value);
      if err.Some? {
        return recs + got, BlockFailed(err.value);
      }
      assert rest[FRAME_HEADER + compLen..] == file[pos + FRAME_HEADER + compLen..];
      PrependTwice(recs, got, ScanFrames(codec, file[pos + FRAME_HEADER + compLen..]));
      recs := recs + got;
      pos := pos + FRAME_HEADER + compLen;
    }
  }

  // ----- the whole-file round trip -----

  lemma FrameFields(codec: Codec, block: seq<Record>, rest: seq<byte>)
    requires Fits(codec, block)
    ensures var f := FrameBytes(codec, block);
            var b := f + rest;
            var comp := codec.compress(EncodeBlock(0, block));
            && CompLen(b) == |comp|
            && |f| == FRAME_HEADER + |comp|
            && b[FRAME_HEADER..|f|] == comp
            && b[|f|..] == rest
  {
    hide PutLE, GetLE, EncodeBlock;
    var raw := EncodeBlock(0, block);
    var comp := codec.compress(raw);
    var b := FrameBytes(codec, block) + rest;
    var lenField := PutLE(|comp| % U32, 4);
    assert b[..4] == lenField;
    Powers();
    LERoundTrip(|comp|, 4);
  }

  lemma ScanOneFrame(codec: Codec, block: seq<Record>, rest: seq<byte>)
    requires codec.Valid() && Fits(codec, block)
    ensures ScanFrames(codec, FrameBytes(codec, block) + rest)
         == Prepend(StoredAll(block), ScanFrames(codec, rest))
  {
    hide DecodeFrom, EncodeBlock, FrameBytes, CompLen, StoredAll;
    FrameFields(codec, block, rest);
    BlockRoundTrip(block);
  }

  lemma {:induction false} ScanWholeFrames(codec: Codec, blocks: seq<seq<Record>>, rest: seq<byte>)
    requires codec.Valid() && forall b | b in blocks :: Fits(codec, b)
    ensures ScanFrames(codec, Frames(codec, blocks) + rest)
         == Prepend(Delivered(blocks), ScanFrames(codec, rest))
    decreases |blocks|
  {
    hide ScanFrames, FrameBytes, Fits, StoredAll;
    if blocks == [] {
      assert Frames(codec, blocks) + rest == rest;
      PrependNothing(ScanFrames(codec, rest));
    } else {
      var init, last := blocks[..|blocks| - 1], blocks[|blocks| - 1];
      var f := FrameBytes(codec, last);
      assert Frames(codec, blocks) + rest == Frames(codec, init) + (f + rest);
      ScanWholeFrames(codec, init, f + rest);
      ScanOneFrame(codec, last, rest);
      PrependTwice(Delivered(init), StoredAll(last), ScanFrames(codec, rest));
    }
  }

  // ----- a file cut at any byte -----

  /** A proper, non-empty prefix of one frame scans as a truncated tail. */
  lemma TornFrame(codec: Codec, block: seq<Record>, m: nat)
    requires Fits(codec, block)
    requires 0 < m < |FrameBytes(codec, block)|
    ensures ScanFrames(codec, FrameBytes(codec, block)[..m]) == Scanned([], TruncatedTail)
  {
    hide DecodeFrom, EncodeBlock, FrameBytes, GetLE;
    var f := FrameBytes(codec, block);
    FrameFields(codec, block, []);
    assert f + [] == f;
    if m >= FRAME_HEADER {
      assert f[..m][..4] == f[..4];
    }
  }

  /** How many blocks lie wholly inside the first k bytes of the frames. */
  function WholeBlocks(codec: Codec, blocks: seq<seq<Record>>, k: nat): (n: nat)
    ensures n <= |blocks|
  {
    if k >= |Frames(codec, blocks)| || blocks == [] then |blocks|
    else WholeBlocks(codec, blocks[..|blocks| - 1], k)
  }

  /** It is the largest number of blocks that fit. */
  lemma {:induction false} WholeBlocksFit(codec: Codec, blocks: seq<seq<Record>>, k: nat)
    ensures var n := WholeBlocks(codec, blocks, k);
            && |Frames(codec, blocks[..n])| <= k
            && (n < |blocks| ==> k < |Frames(codec, blocks[..n + 1])|)
    decreases |blocks|
  {
    hide FrameBytes;
    assert blocks[..|blocks|] == blocks;
    if k < |Frames(codec, blocks)| {
      var init := blocks[..|blocks| - 1];
      WholeBlocksFit(codec, init, k);
      var n := WholeBlocks(codec, init, k);
      assert blocks[..n] == init[..n];
      if n < |init| {
        assert blocks[..n + 1] == init[..n + 1];
      }
    }
  }

  lemma {:induction false} FramesPrefix(codec: Codec, blocks: seq<seq<Record>>, n: nat)
    requires n <= |blocks|
    ensures Frames(codec, blocks[..n]) <= Frames(codec, blocks)
    decreases |blocks|
  {
    hide FrameBytes;
    if n == |blocks| {
      assert blocks[..n] == blocks;
    } else {
      var init := blocks[..|blocks| - 1];
      FramesPrefix(codec, init, n);
      assert init[..n] == blocks[..n];
    }
  }

  /** The first k bytes are the whole blocks followed by a proper prefix of the next frame, if any. */
  lemma CutShape(codec: Codec, blocks: seq<seq<Record>>, k: nat)
    requires k <= |Frames(codec, blocks)|
    ensures |Frames(codec, blocks[..WholeBlocks(codec, blocks, k)])| <= k
    ensures var n := WholeBlocks(codec, blocks, k);
            var m := k - |Frames(codec, blocks[..n])|;
            if n == |blocks| then m == 0 && Frames(codec, blocks)[..k] == Frames(codec, blocks[..n])
            else m < |FrameBytes(codec, blocks[n])|
                 && Frames(codec, blocks)[..k] == Frames(codec, blocks[..n]) + FrameBytes(codec, blocks[n])[..m]
  {
    hide FrameBytes, WholeBlocks;
    WholeBlocksFit(codec, blocks, k);
    var n := WholeBlocks(codec, blocks, k);
    if n == |blocks| {
      assert blocks[..n] == blocks;
    } else {
      FramesPrefix(codec, blocks, n + 1);
      assert blocks[..n + 1][..n] == blocks[..n];
      var joined := Frames(codec, blocks[..n]) + FrameBytes(codec, blocks[n]);
      assert Frames(codec, blocks[..n + 1]) == joined;
      assert Frames(codec, blocks)[..k] == joined[..k];
    }
  }

  /**
    Truncation robustness: a well-formed file cut at any byte at or after the
    header delivers exactly the records of the blocks wholly inside the cut, and
    the scan is clean exactly when the cut falls on a block boundary.
    */
  lemma TruncationRobust(codec: Codec, head: seq<byte>, blocks: seq<seq<Record>>, k: nat)
    requires codec.Valid() && forall b | b in blocks :: Fits(codec, b)
    requires |head| == HEADER_SIZE && HEADER_SIZE <= k <= HEADER_SIZE + |Frames(codec, blocks)|
    ensures var cut := k - HEADER_SIZE;
            var n := WholeBlocks(codec, blocks, cut);
            ScanFile(codec, (head + Frames(codec, blocks))[..k])
            == Scanned(Delivered(blocks[..n]),
                       if cut == |Frames(codec, blocks[..n])| then Complete else TruncatedTail)
  {
    hide FrameBytes, Fits, ScanFrames, StoredAll, Delivered, Frames, WholeBlocks;
    var frames := Frames(codec, blocks);
    var cut := k - HEADER_SIZE;
    var n := WholeBlocks(codec, blocks, cut);
    assert (head + frames)[..k][HEADER_SIZE..] == frames[..cut];
    WholeBlocksFit(codec, blocks, cut);
    CutShape(codec, blocks, cut);
    var m := cut - |Frames(codec, blocks[..n])|;
    var tail := if m == 0 then [] else FrameBytes(codec, blocks[n])[..m];
    assert frames[..cut] == Frames(codec, blocks[..n]) + tail;
    ScanWholeFrames(codec, blocks[..n], tail);
    assert Delivered(blocks[..n]) + [] == Delivered(blocks[..n]);
    if m != 0 {
      assert blocks[n] in blocks;
      TornFrame(codec, blocks[n], m);
    } else {
      ScanNothing(codec);
    }
  }

  lemma ScanNothing(codec: Codec)
    ensures ScanFrames(codec, []) == Scanned([], Complete)
  {
  }

  /** A complete file delivers every stored record exactly once, block by block, and ends cleanly. */
  lemma FileRoundTrip(codec: Codec, file: seq<byte>, blocks: seq<seq<Record>>)
    requires codec.Valid() && forall b | b in blocks :: Fits(codec, b)
    requires |file| >= HEADER_SIZE && file[HEADER_SIZE..] == Frames(codec, blocks)
    ensures ScanFile(codec, file) == Scanned(Delivered(blocks), Complete)
  {
    hide FrameBytes, Fits, ScanFrames, StoredAll, Delivered, Frames;
    ScanWholeFrames(codec, blocks, []);
    assert Frames(codec, blocks) + [] == Frames(codec, blocks);
    ScanNothing(codec);
    assert Delivered(blocks) + [] == Delivered(blocks);
  }

  /**
    A damaged block is never taken for a torn tail or a clean end: behind whole
    blocks, a complete frame whose payload does not decompress, or decodes to an
    error, ends the scan with that error, after the records before the defect.
    */
  lemma DamageIsReported(codec: Codec, head: seq<byte>, blocks: seq<seq<Record>>,
                         fields: seq<byte>, comp: seq<byte>, rest: seq<byte>)
    requires codec.Valid() && forall b | b in blocks :: Fits(codec, b)
    requires |head| == HEADER_SIZE && |comp| < U32 && |fields| == 8
    ensures var file := head + Frames(codec, blocks) + (PutLE(|comp|, 4) + fields + comp + rest);
            var raw := codec.decompress(comp);
            && (raw.None? ==> ScanFile(codec, file) == Scanned(Delivered(blocks), DecompressFailed))
            && (raw.Some? && DecodeFrom(raw.value, 0, 0).err.Some? ==>
                  var p := DecodeFrom(raw.value, 0, 0);
                  ScanFile(codec, file) == Scanned(Delivered(blocks) + p.recs, BlockFailed(p.err.value)))
  {
    hide Fits, Delivered, Frames, DecodeFrom, PutLE, ScanFrames, ScanFile;
    var bad := PutLE(|comp|, 4) + fields + comp + rest;
    ScanBehindHeader(codec, head, Frames(codec, blocks), bad);
    ScanWholeFrames(codec, blocks, bad);
    DamagedFrame(codec, fields, comp, rest);
    assert Delivered(blocks) + [] == Delivered(blocks);
  }

  lemma ScanBehindHeader(codec: Codec, head: seq<byte>, a: seq<byte>, b: seq<byte>)
    requires |head| == HEADER_SIZE
    ensures ScanFile(codec, head + a + b) == ScanFrames(codec, a + b)
  {
    hide ScanFrames;
    assert (head + a + b)[HEADER_SIZE..] == a + b;
  }

  lemma RawFields(fields: seq<byte>, comp: seq<byte>, rest: seq<byte>)
    requires |comp| < U32 && |fields| == 8
    ensures var b := PutLE(|comp|, 4) + fields + comp + rest;
            CompLen(b) == |comp| && b[FRAME_HEADER..FRAME_HEADER + |comp|] == comp
  {
    hide PutLE, GetLE;
    var b := PutLE(|comp|, 4) + fields + comp + rest;
    assert b[..4] == PutLE(|comp|, 4);
    Powers();
    LERoundTrip(|comp|, 4);
  }

  lemma DamagedFrame(codec: Codec, fields: seq<byte>, comp: seq<byte>, rest: seq<byte>)
    requires |comp| < U32 && |fields| == 8
    ensures var b := PutLE(|comp|, 4) + fields + comp + rest;
            var raw := codec.decompress(comp);
            && (raw.None? ==> ScanFrames(codec, b) == Scanned([], DecompressFailed))
            && (raw.Some? && DecodeFrom(raw.value, 0, 0).err.Some? ==>
                  var p := DecodeFrom(raw.value, 0, 0);
                  ScanFrames(codec, b) == Scanned(p.recs, BlockFailed(p.err.value)))
  {
    hide PutLE, CompLen, DecodeFrom;
    RawFields(fields, comp, rest);
  }

  /** Resolver-sized names never make a length field wrap. */
  lemma BoundedBlockFits(codec: Codec, block: seq<Record>)
    requires codec.Valid() && |block| <= BLOCK_RECS
    requires forall r | r in block :: BoundedNames(r)
    ensures Fits(codec, block)
    ensures |EncodeBlock(0, block)| <= MAX_RAW < U32
  {
    hide EncodeBlock;
    EncodeBlockSize(0, block);
  }

  // ----- the fixed header -----

  const MAGIC: seq<byte> := [82, 68, 78, 83, 50] // "RDNS2"
  const FORMAT_VER: byte := 2
  const OFF_VERSION := 5
  const OFF_SHARDS := 6
  const OFF_SHARD_ID := 8
  const OFF_CREATED := 10
  const OFF_TOTAL := 18
  const OFF_COUNTS := 26

  datatype Header = Header(version: byte, shards: nat, shardId: nat, created: int, total: nat, counts: seq<nat>)

  datatype HeaderResult = HeaderOk(h: Header) | HeaderTooShort | BadMagic

  function Field(h: seq<byte>, off: nat, n: nat): nat
    requires off + n <= |h|
  {
    GetLE(h[off..off + n])
  }

  /** `uint64(x)` of an int64, and back. */
  function AsUnsigned(x: int64): uint64 {
    x % U64
  }

  function AsSigned(u: nat): int {
    if u >= I64_LIMIT then u - U64 else u
  }

  /** `ReadHeader` */
  function ParseHeader(file: seq<byte>): HeaderResult {
    if |file| < HEADER_SIZE then HeaderTooShort
    else if file[..5] != MAGIC then BadMagic
    else
      HeaderOk(Header(
        file[OFF_VERSION],
        Field(file, OFF_SHARDS, 2),
        Field(file, OFF_SHARD_ID, 2),
        AsSigned(Field(file, OFF_CREATED, 8)),
        Field(file, OFF_TOTAL, 8),
        seq(NUM_STATUS_CODES, i requires 0 <= i < NUM_STATUS_CODES => Field(file, OFF_COUNTS + i * 8, 8))))
  }

  /** Overwrites the bytes of h from off on with b. */
  function Patch(h: seq<byte>, off: nat, b: seq<byte>): (r: seq<byte>)
    requires off + |b| <= |h|
    ensures |r| == |h|
    ensures r[off..off + |b|] == b
  {
    h[..off] + b + h[off + |b|..]
  }

  lemma PatchElsewhere(h: seq<byte>, off: nat, b: seq<byte>, lo: nat, n: nat)
    requires off + |b| <= |h| && lo + n <= |h|
    requires lo + n <= off || off + |b| <= lo
    ensures Patch(h, off, b)[lo..lo + n] == h[lo..lo + n]
  {
    var r := Patch(h, off, b);
    forall i | lo <= i < lo + n ensures r[i] == h[i] {
    }
  }

  /** The fixed fields of a header image, before the histogram is patched in. */
  ghost predicate FixedFields(h: seq<byte>, shards: uint16, shardId: uint16, created: int64, total: uint64) {
    && |h| == HEADER_SIZE
    && h[..5] == MAGIC
    && h[OFF_VERSION] == FORMAT_VER
    && h[OFF_SHARDS..OFF_SHARDS + 2] == PutLE(shards, 2)
    && h[OFF_SHARD_ID..OFF_SHARD_ID + 2] == PutLE(shardId, 2)
    && h[OFF_CREATED..OFF_CREATED + 8] == PutLE(AsUnsigned(created), 8)
    && h[OFF_TOTAL..OFF_TOTAL + 8] == PutLE(total, 8)
  }

  lemma FixedFieldsKept(h: seq<byte>, off: nat, b: seq<byte>,
                        shards: uint16, shardId: uint16, created: int64, total: uint64)
    requires FixedFields(h, shards, shardId, created, total)
    requires OFF_COUNTS <= off && off + |b| <= HEADER_SIZE
    ensures FixedFields(Patch(h, off, b), shards, shardId, created, total)
  {
    hide PutLE;
    PatchElsewhere(h, off, b, 0, 5);
    assert h[..5] == h[0..0 + 5] && Patch(h, off, b)[..5] == Patch(h, off, b)[0..0 + 5];
    PatchElsewhere(h, off, b, OFF_SHARDS, 2);
    PatchElsewhere(h, off, b, OFF_SHARD_ID, 2);
    PatchElsewhere(h, off, b, OFF_CREATED, 8);
    PatchElsewhere(h, off, b, OFF_TOTAL, 8);
  }

  /** The image with only the fixed fields set. */
  method FixedPart(shards: uint16, shardId: uint16, created: int64, total: uint64) returns (h: seq<byte>)
    ensures FixedFields(h, shards, shardId, created, total)
  {
    hide PutLE;
    h := seq(HEADER_SIZE, _ => 0);
    h := Patch(h, 0, MAGIC);
    h := Patch(h, OFF_VERSION, [FORMAT_VER]);
    h := Patch(h, OFF_SHARDS, PutLE(shards, 2));
    h := Patch(h, OFF_SHARD_ID, PutLE(shardId, 2));
    h := Patch(h, OFF_CREATED, PutLE(AsUnsigned(created), 8));
    h := Patch(h, OFF_TOTAL, PutLE(total, 8));
  }

  /** `header()`: what it writes is what `ReadHeader` reads, whatever follows it in the file. */
  method BuildHeader(shards: uint16, shardId: uint16, created: int64, total: uint64, counts: seq<uint64>)
    returns (h: seq<byte>)
    requires |counts| == NUM_STATUS_CODES
    ensures |h| == HEADER_SIZE
    ensures forall rest: seq<byte> ::
              ParseHeader(h + rest) == HeaderOk(Header(FORMAT_VER, shards, shardId, created, total, counts))
  {
    hide PutLE;
    h := FixedPart(shards, shardId, created, total);
    var i := 0;
    while i < NUM_STATUS_CODES
      invariant 0 <= i <= NUM_STATUS_CODES
      invariant FixedFields(h, shards, shardId, created, total)
      invariant forall j | 0 <= j < i :: h[OFF_COUNTS + j * 8..OFF_COUNTS + j * 8 + 8] == PutLE(counts[j], 8)
    {
      var off := OFF_COUNTS + i * 8;
      FixedFieldsKept(h, off, PutLE(counts[i], 8), shards, shardId, created, total);
      forall j | 0 <= j < i
        ensures Patch(h, off, PutLE(counts[i], 8))[OFF_COUNTS + j * 8..OFF_COUNTS + j * 8 + 8] == PutLE(counts[j], 8)
      {
        PatchElsewhere(h, off, PutLE(counts[i], 8), OFF_COUNTS + j * 8, 8);
      }
      h := Patch(h, off, PutLE(counts[i], 8));
      i := i + 1;
    }
    forall rest: seq<byte>
      ensures ParseHeader(h + rest) == HeaderOk(Header(FORMAT_VER, shards, shardId, created, total, counts))
    {
      HeaderReadsBack(h, rest, shards, shardId, created, total, counts);
    }
  }

  lemma FieldReadsBack(h: seq<byte>, rest: seq<byte>, off: nat, n: nat, v: nat)
    requires off + n <= |h| && h[off..off + n] == PutLE(v, n) && v < Pow256(n)
    ensures Field(h + rest, off, n) == v
  {
    hide PutLE, GetLE, Pow256;
    assert (h + rest)[off..off + n] == h[off..off + n];
    LERoundTrip(v, n);
  }

  lemma HeaderReadsBack(h: seq<byte>, rest: seq<byte>,
                        shards: uint16, shardId: uint16, created: int64, total: uint64, counts: seq<uint64>)
    requires FixedFields(h, shards, shardId, created, total)
    requires |counts| == NUM_STATUS_CODES
    requires forall j | 0 <= j < NUM_STATUS_CODES ::
               h[OFF_COUNTS + j * 8..OFF_COUNTS + j * 8 + 8] == PutLE(counts[j], 8)
    ensures ParseHeader(h + rest) == HeaderOk(Header(FORMAT_VER, shards, shardId, created, total, counts))
  {
    hide PutLE, Field, Pow256;
    var file := h + rest;
    Powers();
    assert file[..5] == h[..5];
    FieldReadsBack(h, rest, OFF_SHARDS, 2, shards);
    FieldReadsBack(h, rest, OFF_SHARD_ID, 2, shardId);
    FieldReadsBack(h, rest, OFF_CREATED, 8, AsUnsigned(created));
    assert AsSigned(AsUnsigned(created)) == created;
    FieldReadsBack(h, rest, OFF_TOTAL, 8, total);
    forall j | 0 <= j < NUM_STATUS_CODES ensures Field(file, OFF_COUNTS + j * 8, 8) == counts[j] {
      FieldReadsBack(h, rest, OFF_COUNTS + j * 8, 8, counts[j]);
    }
    assert ParseHeader(file).h.counts == counts;
  }
}
