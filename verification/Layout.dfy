/**
  The bytes of a closed .rdnsz file at their absolute positions, as the format
  notes of internal/store/format.go lay them out for a third-party reader.
  */
module Layout {
  import opened Model
  import opened Bytes
  import opened Block
  import opened Reader
  import opened Writer

  // ----- integers at an offset, least significant byte first -----

  function U16At(b: seq<byte>, off: nat): nat
    requires off + 2 <= |b|
  {
    var lo: int, hi: int := b[off], b[off + 1];
    lo + 0x100 * hi
  }

  function U32At(b: seq<byte>, off: nat): nat
    requires off + 4 <= |b|
  {
    U16At(b, off) + 0x1_0000 * U16At(b, off + 2)
  }

  function U64At(b: seq<byte>, off: nat): nat
    requires off + 8 <= |b|
  {
    U32At(b, off) + 0x1_0000_0000 * U32At(b, off + 4)
  }

  lemma FieldStep(b: seq<byte>, off: nat, n: nat)
    requires n > 0 && off + n <= |b|
    ensures Field(b, off, n) == b[off] + 256 * Field(b, off + 1, n - 1)
  {
    var f := b[off..off + n];
    assert f[1..] == b[off + 1..off + 1 + (n - 1)];
  }

  lemma NoField(b: seq<byte>, off: nat)
    requires off <= |b|
    ensures Field(b, off, 0) == 0
  {
  }

  lemma FourBytes(b: seq<byte>, off: nat, n: nat)
    requires off + 4 + n <= |b|
    ensures Field(b, off, 4 + n) == U32At(b, off) + 0x1_0000_0000 * Field(b, off + 4, n)
  {
    hide Field;
    FieldStep(b, off, 4 + n);
    FieldStep(b, off + 1, 3 + n);
    FieldStep(b, off + 2, 2 + n);
    FieldStep(b, off + 3, 1 + n);
  }

  lemma FieldsAreIntegers(b: seq<byte>, off: nat)
    ensures off + 2 <= |b| ==> Field(b, off, 2) == U16At(b, off)
    ensures off + 4 <= |b| ==> Field(b, off, 4) == U32At(b, off)
    ensures off + 8 <= |b| ==> Field(b, off, 8) == U64At(b, off)
  {
    hide Field;
    if off + 2 <= |b| {
      FieldStep(b, off, 2);
      FieldStep(b, off + 1, 1);
      NoField(b, off + 2);
    }
    if off + 4 <= |b| {
      FourBytes(b, off, 0);
      NoField(b, off + 4);
    }
    if off + 8 <= |b| {
      FourBytes(b, off, 4);
      FourBytes(b, off + 4, 0);
      NoField(b, off + 8);
    }
  }

  // ----- the header -----

  /** "RDNS2", version, shard count and id, creation time in two's complement, total, eight counts. */
  ghost predicate HeaderBytes(b: seq<byte>, h: Header) {
    && |b| >= 128 && b[..5] == [82, 68, 78, 83, 50] && b[5] == h.version
    && U16At(b, 6) == h.shards && U16At(b, 8) == h.shardId
    && U64At(b, 10) == (if h.created >= 0 then h.created else h.created + U64)
    && U64At(b, 18) == h.total
    && |h.counts| == 8 && forall i | 0 <= i < 8 :: U64At(b, 26 + 8 * i) == h.counts[i]
  }

  lemma FieldBound(b: seq<byte>, off: nat)
    requires off + 8 <= |b|
    ensures Field(b, off, 8) < U64
  {
    hide GetLE, Pow256;
    GetLEBound(b[off..off + 8]);
    Powers();
  }

  /** Whatever `ReadHeader` accepts lies at these offsets. */
  lemma HeaderLayout(file: seq<byte>)
    requires ParseHeader(file).HeaderOk?
    ensures HeaderBytes(file, ParseHeader(file).h)
  {
    hide Field, U16At, U64At;
    FieldsAreIntegers(file, 6);
    FieldsAreIntegers(file, 8);
    FieldsAreIntegers(file, 10);
    FieldsAreIntegers(file, 18);
    FieldBound(file, 10);
    forall i | 0 <= i < 8 ensures U64At(file, 26 + 8 * i) == ParseHeader(file).h.counts[i] {
      FieldsAreIntegers(file, 26 + 8 * i);
    }
  }

  // ----- frames -----

  /** A frame at an offset: compressed length, record count, raw length, compressed payload. */
  ghost predicate FrameAt(codec: Codec, b: seq<byte>, off: nat, block: seq<Record>) {
    var raw := EncodeBlock(0, block);
    var comp := codec.compress(raw);
    && off + 12 + |comp| <= |b|
    && U32At(b, off) == |comp| && U32At(b, off + 4) == |block| && U32At(b, off + 8) == |raw|
    && b[off + 12..off + 12 + |comp|] == comp
  }

  lemma IntegerIs(b: seq<byte>, off: nat, v: nat)
    requires off + 4 <= |b| && v < U32 && b[off..off + 4] == PutLE(v, 4)
    ensures U32At(b, off) == v
  {
    hide PutLE, GetLE, U32At, Pow256;
    Powers();
    LERoundTrip(v, 4);
    FieldsAreIntegers(b, off);
  }

  lemma FrameLayout(codec: Codec, before: seq<byte>, block: seq<Record>, rest: seq<byte>)
    requires Fits(codec, block) && |block| <= BLOCK_RECS
    ensures FrameAt(codec, before + FrameBytes(codec, block) + rest, |before|, block)
  {
    hide EncodeBlock, PutLE, U32At;
    var raw := EncodeBlock(0, block);
    var comp := codec.compress(raw);
    var frame := FrameBytes(codec, block);
    var b := before + frame + rest;
    var off := |before|;
    assert |frame| == 12 + |comp|;
    forall lo: nat, hi: nat | lo <= hi <= |frame| ensures b[off + lo..off + hi] == frame[lo..hi] {
    }
    assert frame[0..4] == PutLE(|comp| % U32, 4);
    assert frame[4..8] == PutLE(|block| % U32, 4);
    assert frame[8..12] == PutLE(|raw| % U32, 4);
    assert frame[12..12 + |comp|] == comp;
    assert b[off + 0..off + 4] == frame[0..4] && b[off + 4..off + 8] == frame[4..8] && b[off + 8..off + 12] == frame[8..12];
    assert b[off..off + 4] == frame[0..4];
    IntegerIs(b, off, |comp|);
    IntegerIs(b, off + 4, |block|);
    IntegerIs(b, off + 8, |raw|);
    assert b[off + 12..off + 12 + |comp|] == frame[12..12 + |comp|];
  }

  lemma {:induction false} FramesSplit(codec: Codec, blocks: seq<seq<Record>>, k: nat) returns (rest: seq<byte>)
    requires k < |blocks|
    ensures Frames(codec, blocks) == Frames(codec, blocks[..k]) + FrameBytes(codec, blocks[k]) + rest
    decreases |blocks|
  {
    hide FrameBytes;
    var n := |blocks| - 1;
    if k == n {
      rest := [];
    } else {
      var mid := FramesSplit(codec, blocks[..n], k);
      assert blocks[..n][..k] == blocks[..k];
      rest := mid + FrameBytes(codec, blocks[n]);
    }
  }

  /**
    The whole file: the header at its offsets, then block after block, each behind
    its three length fields, from byte 128 on without gaps.
    */
  lemma FileLayout(codec: Codec, file: seq<byte>, shards: nat, shardId: nat,
                   chunks: seq<seq<Record>>, blocks: seq<seq<Record>>, k: nat)
    requires Closed(codec, file, shards, shardId, chunks, blocks)
    requires k < |blocks| && forall b | b in blocks :: Fits(codec, b)
    ensures HeaderBytes(file, ParseHeader(file).h)
    ensures FrameAt(codec, file, 128 + |Frames(codec, blocks[..k])|, blocks[k])
    ensures multiset(blocks[k]) == multiset(chunks[k])
  {
    hide ParseHeader, Frames, FrameBytes, Tallies, Fits, FrameAt, HeaderBytes;
    HeaderLayout(file);
    var rest := FramesSplit(codec, blocks, k);
    var before := file[..HEADER_SIZE] + Frames(codec, blocks[..k]);
    assert file == file[..HEADER_SIZE] + file[HEADER_SIZE..];
    assert file == before + FrameBytes(codec, blocks[k]) + rest;
    assert |multiset(blocks[k])| == |multiset(chunks[k])|;
    FrameLayout(codec, before, blocks[k], rest);
  }

  // ----- one record -----

  /** What base-128 digits denote, least significant first; bit 7 is set on all but the last. */
  function Base128(b: seq<byte>): nat {
    if b == [] then 0 else b[0] % 128 + 128 * Base128(b[1..])
  }

  lemma {:induction false} VarintLayout(v: nat)
    ensures var b := PutUvarint(v);
            && Base128(b) == v
            && b[|b| - 1] < 128 && forall i | 0 <= i < |b| - 1 :: b[i] >= 128
  {
    var b := PutUvarint(v);
    if v >= 128 {
      VarintLayout(v / 128);
      assert b[1..] == PutUvarint(v / 128);
      forall i | 0 < i < |b| - 1 ensures b[i] >= 128 {
        assert b[i] == b[1..][i - 1];
      }
      assert b[|b| - 1] == b[1..][|b| - 2];
    } else {
      assert b[1..] == [];
    }
  }

  /**
    One record behind address prev: the address difference, then a byte with the
    status code in bits 0 to 3, bit 4 if FCrDNS was checked and bit 5 if it matched,
    then for has_ptr alone the number of names and the names.
    */
  lemma RecordLayout(prev: uint32, r: Record)
    ensures var delta := if r.ip >= prev then r.ip - prev else r.ip - prev + U32;
            var head := PutUvarint(delta);
            var b := EncodeRec(prev, r);
            && |b| > |head| && b[..|head|] == head
            && (exists c :: CodeOf(r.status, c)
                            && b[|head|] == c + (if r.fcrdns.Some? then 16 else 0) + (if r.fcrdns == Some(true) then 32 else 0))
            && (r.status != HasPtr ==> |b| == |head| + 1)
            && (r.status == HasPtr ==> |b| > |head| + 1 && b[|head| + 1] == if |r.ptr| > 32 then 32 else |r.ptr|)
  {
    hide PutUvarint, EncodeNames;
    var delta := if r.ip >= prev then r.ip - prev else r.ip - prev + U32;
    assert Delta(prev, r.ip) == delta;
    assert CodeOf(r.status, Code(r.status));
    if r.status == HasPtr {
      var n := |KeptNames(r)|;
      assert PutUvarint(n) == [n] by { OneByte(n); }
    }
  }

  lemma OneByte(v: nat)
    requires v < 128
    ensures PutUvarint(v) == [v]
  {
  }
}
