/**
  The .rdnsz writer (internal/store/writer.go): buffering, sorted blocks, the
  patched header, and resuming a file across sessions.
  */
module Writer {
  import opened Model
  import opened Bytes
  import opened Block
  import opened Counting
  import opened Reader
  import Sorting

  function RecordIp(r: Record): int { r.ip }
  function RecordCode(r: Record): int { Code(r.status) }
  function RecStatus(r: Rec): int { r.status }

  /** A block is some IP-sorted permutation of a non-empty chunk of at most 65536 additions. */
  ghost predicate IsBlockOf(block: seq<Record>, chunk: seq<Record>) {
    && Sorting.SortedBy(RecordIp, block)
    && multiset(block) == multiset(chunk)
    && 0 < |chunk| <= BLOCK_RECS
  }

  /** The bytes after the header are these blocks, one per chunk. */
  ghost predicate Holds(codec: Codec, file: seq<byte>, chunks: seq<seq<Record>>, blocks: seq<seq<Record>>) {
    && |file| >= HEADER_SIZE
    && file[HEADER_SIZE..] == Frames(codec, blocks)
    && |chunks| == |blocks|
    && forall i | 0 <= i < |blocks| :: IsBlockOf(blocks[i], chunks[i])
  }

  /** The running totals a writer keeps for `added`, in 64-bit arithmetic. */
  ghost predicate Tallies(total: nat, counts: seq<nat>, added: seq<Record>) {
    && total == |added| % U64
    && |counts| == NUM_STATUS_CODES
    && forall c | 0 <= c < NUM_STATUS_CODES :: counts[c] == CountKey(RecordCode, added, c) % U64
  }

  /** A file that a session closed: identity, totals and histogram of everything added so far. */
  ghost predicate Closed(codec: Codec, file: seq<byte>, shards: nat, shardId: nat,
                         chunks: seq<seq<Record>>, blocks: seq<seq<Record>>) {
    && Holds(codec, file, chunks, blocks)
    && ParseHeader(file).HeaderOk?
    && var h := ParseHeader(file).h;
       && h.version == FORMAT_VER && h.shards == shards && h.shardId == shardId
       && Tallies(h.total, h.counts, Flatten(chunks))
  }

  lemma TalliesSnoc(total: nat, counts: seq<nat>, added: seq<Record>, r: Record)
    requires Tallies(total, counts, added)
    ensures Code(r.status) < |counts|
    ensures var c := Code(r.status);
            Tallies((total + 1) % U64, counts[c := (counts[c] + 1) % U64], added + [r])
  {
    hide Code, CountKey;
    forall c | 0 <= c < NUM_STATUS_CODES
      ensures CountKey(RecordCode, added + [r], c)
           == CountKey(RecordCode, added, c) + (if Code(r.status) == c then 1 else 0)
    {
      CountKeySnoc(RecordCode, added, r, c);
    }
  }

  datatype ResumeError = BadHeader | ShardMismatch

  class Writer {
    const codec: Codec
    const shards: uint16
    const shardId: uint16
    var created: int64
    var total: uint64
    var counts: seq<uint64>
    var fcChecked: nat
    var fcMatch: nat
    var buf: seq<Record>
    /** The file and its buffered writer: a 128-byte header area, then frames. */
    var file: seq<byte>

    ghost var chunks: seq<seq<Record>>
    ghost var blocks: seq<seq<Record>>

    /** Everything added to the file since it was created. */
    ghost function Added(): seq<Record>
      reads this
    {
      Flatten(chunks) + buf
    }

    ghost predicate Valid()
      reads this
    {
      && Holds(codec, file, chunks, blocks)
      && |buf| < BLOCK_RECS
      && Tallies(total, counts, Added())
    }

    /** `NewWriter`: a zeroed header area and nothing else. */
    constructor (codec: Codec, shards: uint16, shardId: uint16, now: int64)
      ensures Valid() && Added() == []
      ensures this.codec == codec && this.shards == shards && this.shardId == shardId
      ensures created == now
    {
      this.codec, this.shards, this.shardId := codec, shards, shardId;
      created, total, counts := now, 0, [0, 0, 0, 0, 0, 0, 0, 0];
      fcChecked, fcMatch, buf := 0, 0, [];
      file := seq(HEADER_SIZE, _ => 0);
      chunks, blocks := [], [];
    }

    /** The second half of `NewWriterResume`: append to a file, seeding totals from its header. */
    constructor Append(codec: Codec, existing: seq<byte>, h: Header, now: int64,
                       ghost chunks: seq<seq<Record>>, ghost blocks: seq<seq<Record>>)
      requires ParseHeader(existing) == HeaderOk(h)
      ensures Closed(codec, existing, h.shards, h.shardId, chunks, blocks) ==> Valid() && Added() == Flatten(chunks)
      ensures this.codec == codec && this.shards == h.shards && this.shardId == h.shardId
      ensures created == if h.created != 0 then h.created else now
    {
      HeaderRanges(existing);
      this.codec, this.shards, this.shardId := codec, h.shards, h.shardId;
      created := if h.created != 0 then h.created else now;
      total, counts := h.total, h.counts;
      fcChecked, fcMatch, buf, file := 0, 0, [], existing;
      this.chunks, this.blocks := chunks, blocks;
      assert Flatten(chunks) + [] == Flatten(chunks);
    }

    /** `add`: count, buffer, and flush a full block. */
    method Add(r: Record)
      requires Valid()
      modifies this
      ensures Valid() && created == old(created)
      ensures Added() == old(Added()) + [r]
      ensures |old(buf)| + 1 < BLOCK_RECS ==> buf == old(buf) + [r] && chunks == old(chunks) && file == old(file)
      ensures |old(buf)| + 1 >= BLOCK_RECS ==> buf == [] && chunks == old(chunks) + [old(buf) + [r]]
      ensures fcChecked == old(fcChecked) + (if r.fcrdns.Some? then 1 else 0)
      ensures fcMatch == old(fcMatch) + (if r.fcrdns == Some(true) then 1 else 0)
    {
      hide Holds, Tallies, Flatten;
      TalliesSnoc(total, counts, Added(), r);
      var c := Code(r.status);
      total := (total + 1) % U64;
      counts := counts[c := (counts[c] + 1) % U64];
      if r.fcrdns.Some? {
        fcChecked := fcChecked + 1;
        if r.fcrdns.value {
          fcMatch := fcMatch + 1;
        }
      }
      assert Flatten(chunks) + buf + [r] == Flatten(chunks) + (buf + [r]);
      buf := buf + [r];
      if |buf| >= BLOCK_RECS {
        FlushBlock();
      }
    }

    /** `flushBlock`: sort, encode, compress and frame the buffered records. */
    method FlushBlock()
      requires Holds(codec, file, chunks, blocks) && |buf| <= BLOCK_RECS
      modifies this
      ensures Holds(codec, file, chunks, blocks) && buf == []
      ensures Added() == old(Added())
      ensures chunks == if old(buf) == [] then old(chunks) else old(chunks) + [old(buf)]
      ensures created == old(created) && total == old(total) && counts == old(counts)
      ensures fcChecked == old(fcChecked) && fcMatch == old(fcMatch)
    {
      hide EncodeBlock, PutLE, Holds, Flatten;
      if |buf| == 0 {
        return;
      }
      var sorted := Sorting.UnstableSort(RecordIp, buf);
      var raw := EncodePayload(sorted);
      var comp := codec.compress(raw);
      var frame := PutLE(|comp| % U32, 4) + PutLE(|buf| % U32, 4) + PutLE(|raw| % U32, 4) + comp;
      assert frame == FrameBytes(codec, sorted);
      HoldsSnoc(codec, file, chunks, blocks, buf, sorted);
      FlattenSnoc(chunks, buf);
      file := file + frame;
      chunks, blocks := chunks + [buf], blocks + [sorted];
      buf := [];
      assert Flatten(chunks) + [] == Flatten(chunks);
    }

    /** `Close`: flush the final block and patch the header. */
    method Close()
      requires Valid()
      modifies this
      ensures Closed(codec, file, shards, shardId, chunks, blocks)
      ensures Flatten(chunks) == old(Added())
      ensures ParseHeader(file).h.created == created == old(created)
    {
      FlushBlock();
      assert Flatten(chunks) + [] == Flatten(chunks);
      var h := BuildHeader(shards, shardId, created, total, counts);
      assert (h + file[HEADER_SIZE..])[HEADER_SIZE..] == file[HEADER_SIZE..];
      file := h + file[HEADER_SIZE..];
    }
  }

  lemma FramesSnoc(codec: Codec, blocks: seq<seq<Record>>, b: seq<Record>)
    ensures Frames(codec, blocks + [b]) == Frames(codec, blocks) + FrameBytes(codec, b)
  {
    assert (blocks + [b])[..|blocks|] == blocks;
  }

  lemma HoldsSnoc(codec: Codec, file: seq<byte>, chunks: seq<seq<Record>>, blocks: seq<seq<Record>>,
                  chunk: seq<Record>, block: seq<Record>)
    requires Holds(codec, file, chunks, blocks) && IsBlockOf(block, chunk)
    ensures Holds(codec, file + FrameBytes(codec, block), chunks + [chunk], blocks + [block])
  {
    hide FrameBytes, IsBlockOf, Frames;
    var frame := FrameBytes(codec, block);
    FramesSnoc(codec, blocks, block);
    assert (file + frame)[HEADER_SIZE..] == file[HEADER_SIZE..] + frame;
  }

  /** Whatever bytes a header holds, the fields read from it are in the range of their width. */
  lemma HeaderRanges(file: seq<byte>)
    requires ParseHeader(file).HeaderOk?
    ensures var h := ParseHeader(file).h;
            && h.shards < 0x1_0000 && h.shardId < 0x1_0000
            && -I64_LIMIT <= h.created < I64_LIMIT
            && h.total < U64
            && |h.counts| == NUM_STATUS_CODES
            && forall i | 0 <= i < NUM_STATUS_CODES :: h.counts[i] < U64
  {
    hide GetLE;
    Powers();
    GetLEBound(file[OFF_SHARDS..OFF_SHARDS + 2]);
    GetLEBound(file[OFF_SHARD_ID..OFF_SHARD_ID + 2]);
    GetLEBound(file[OFF_CREATED..OFF_CREATED + 8]);
    GetLEBound(file[OFF_TOTAL..OFF_TOTAL + 8]);
    forall i | 0 <= i < NUM_STATUS_CODES ensures Field(file, OFF_COUNTS + i * 8, 8) < U64 {
      GetLEBound(file[OFF_COUNTS + i * 8..OFF_COUNTS + i * 8 + 8]);
    }
  }

  /**
    `NewWriterResume`: a missing or short file starts afresh, a foreign header or
    another shard's file is refused, and a file some session closed is continued.
    */
  method Resume(codec: Codec, existing: Option<seq<byte>>, shards: uint16, shardId: uint16, now: int64,
                ghost chunks: seq<seq<Record>>, ghost blocks: seq<seq<Record>>)
    returns (w: Writer?, err: Option<ResumeError>)
    ensures w == null <==> err.Some?
    ensures w != null ==> fresh(w) && w.codec == codec && w.shards == shards && w.shardId == shardId
    ensures existing.None? || |existing.value| < HEADER_SIZE ==> w != null && w.Valid() && w.Added() == []
    ensures existing.Some? && |existing.value| >= HEADER_SIZE ==>
              match ParseHeader(existing.value)
              case HeaderOk(h) =>
                (w == null <==> h.shards != shards || h.shardId != shardId)
                && (w == null ==> err == Some(ShardMismatch))
                && (Closed(codec, existing.value, shards, shardId, chunks, blocks) ==>
                      w != null && w.Valid() && w.Added() == Flatten(chunks)
                      && w.created == if h.created != 0 then h.created else now)
              case _ => err == Some(BadHeader)
  {
    if existing.None? || |existing.value| < HEADER_SIZE {
      w := new Writer(codec, shards, shardId, now);
      return w, None;
    }
    var parsed := ParseHeader(existing.value);
    if !parsed.HeaderOk? {
      return null, Some(BadHeader);
    }
    var h := parsed.h;
    if h.shards != shards || h.shardId != shardId {
      return null, Some(ShardMismatch);
    }
    w := new Writer.Append(codec, existing.value, h, now, chunks, blocks);
    err := None;
  }
}
