/** Merging at the level of .rdnsz files: what is accepted, and what the merged file reads back as. */
module MergeFiles {
  import opened Model
  import opened Counting
  import opened Sorting
  import opened Block
  import opened Reader
  import opened Writer
  import opened Sessions
  import opened MergeSpec
  import opened MergeTable
  import opened MergeLaws
  import opened Merge

  datatype MergeError =
    | OldHeader | NewHeader | NewScan(end: ScanEnd) | ArenaTooLarge | NewTruncated | IdentityMismatch
    | BaselineScan(end: ScanEnd)

  function NewRecs(codec: Codec, newFile: Option<seq<byte>>): seq<Rec> {
    if newFile.None? then [] else ScanFile(codec, newFile.value).recs
  }

  /** A new shard that can be merged: readable, of the same shard, and complete unless partial passes are allowed. */
  predicate NewUsable(codec: Codec, oldHdr: Header, newFile: seq<byte>, allowPartial: bool) {
    var end := ScanFile(codec, newFile).end;
    && ParseHeader(newFile).HeaderOk?
    && (end == Complete || (end == TruncatedTail && allowPartial))
    && ArenaBytes(ScanFile(codec, newFile).recs) <= MAX_UINT32
    && ParseHeader(newFile).h.shards == oldHdr.shards
    && ParseHeader(newFile).h.shardId == oldHdr.shardId
  }

  /** The merge gets as far as scanning the baseline. */
  predicate Loadable(codec: Codec, oldFile: seq<byte>, newFile: Option<seq<byte>>, allowPartial: bool) {
    && ParseHeader(oldFile).HeaderOk?
    && (newFile.Some? ==> NewUsable(codec, ParseHeader(oldFile).h, newFile.value, allowPartial))
  }

  predicate Mergeable(codec: Codec, oldFile: seq<byte>, newFile: Option<seq<byte>>, allowPartial: bool) {
    Loadable(codec, oldFile, newFile, allowPartial) && ScanFile(codec, oldFile).end == Complete
  }

  /** What an error says about the files. */
  predicate Blames(err: MergeError, codec: Codec, oldFile: seq<byte>, newFile: Option<seq<byte>>, allowPartial: bool) {
    match err
    case OldHeader => !ParseHeader(oldFile).HeaderOk?
    case NewHeader => newFile.Some? && !ParseHeader(newFile.value).HeaderOk?
    case NewScan(end) => newFile.Some? && ScanFile(codec, newFile.value).end == end != Complete && end != TruncatedTail
    case ArenaTooLarge => newFile.Some? && ArenaBytes(ScanFile(codec, newFile.value).recs) > MAX_UINT32
    case NewTruncated => newFile.Some? && ScanFile(codec, newFile.value).end == TruncatedTail && !allowPartial
    case IdentityMismatch =>
      && newFile.Some? && ParseHeader(newFile.value).HeaderOk? && ParseHeader(oldFile).HeaderOk?
      && var a, b := ParseHeader(oldFile).h, ParseHeader(newFile.value).h;
         a.shards != b.shards || a.shardId != b.shardId
    case BaselineScan(end) => ScanFile(codec, oldFile).end == end != Complete
  }

  /** `loadNewShard` with the checks that follow it; no new file means an empty table. */
  method LoadChecked(codec: Codec, oldHdr: Header, newFile: Option<seq<byte>>, allowPartial: bool, res: Result,
                     ghost oldFile: seq<byte>)
    returns (err: Option<MergeError>, ents: seq<NewEnt>, arena: seq<byte>, created: Option<int>)
    requires ParseHeader(oldFile) == HeaderOk(oldHdr)
    modifies res`newDups
    ensures err.Some? ==> Blames(err.value, codec, oldFile, newFile, allowPartial)
    ensures err.None? <==> newFile.None? || NewUsable(codec, oldHdr, newFile.value, allowPartial)
    ensures err.None? ==> Table(ents, arena, NewRecs(codec, newFile))
    ensures err.None? ==> forall k | 0 <= k < |ents| :: !Used(ents[k])
    ensures err.None? ==> res.newDups == old(res.newDups) + |NewRecs(codec, newFile)| - |ents|
    ensures err.None? && newFile.Some? ==> ParseHeader(newFile.value).HeaderOk?
    ensures err.None? ==> created == if newFile.None? then None else Some(ParseHeader(newFile.value).h.created)
  {
    hide ParseHeader, ScanFile, Table, ArenaBytes, Used;
    err, ents, arena, created := None, [], [], None;
    if newFile.None? {
      EmptyTable();
      return;
    }
    var parsed := ParseHeader(newFile.value);
    if !parsed.HeaderOk? {
      return Some(NewHeader), ents, arena, None;
    }
    var recs, end := Scan(codec, newFile.value);
    var ok, dups;
    ok, ents, arena, dups := LoadNewShard(recs);
    if !ok {
      return Some(ArenaTooLarge), ents, arena, None;
    }
    if end != Complete && end != TruncatedTail {
      return Some(NewScan(end)), ents, arena, None;
    }
    res.newDups := res.newDups + dups;
    if end == TruncatedTail && !allowPartial {
      return Some(NewTruncated), ents, arena, None;
    }
    if parsed.h.shards != oldHdr.shards || parsed.h.shardId != oldHdr.shardId {
      return Some(IdentityMismatch), ents, arena, None;
    }
    created := Some(parsed.h.created);
  }

  /** The merge is refused exactly when there is something to blame. */
  lemma RefusedIffBlamed(codec: Codec, oldFile: seq<byte>, newFile: Option<seq<byte>>, allowPartial: bool)
    ensures Mergeable(codec, oldFile, newFile, allowPartial) <==>
              forall err :: !Blames(err, codec, oldFile, newFile, allowPartial)
  {
    hide ParseHeader, ScanFile, ArenaBytes;
    if !Mergeable(codec, oldFile, newFile, allowPartial) {
      var end := ScanFile(codec, oldFile).end;
      assert Blames(OldHeader, codec, oldFile, newFile, allowPartial)
             || Blames(BaselineScan(end), codec, oldFile, newFile, allowPartial)
             || BlamesNew(codec, oldFile, newFile, allowPartial);
    }
  }

  predicate BlamesNew(codec: Codec, oldFile: seq<byte>, newFile: Option<seq<byte>>, allowPartial: bool) {
    && newFile.Some?
    && (|| Blames(NewHeader, codec, oldFile, newFile, allowPartial)
        || Blames(NewScan(ScanFile(codec, newFile.value).end), codec, oldFile, newFile, allowPartial)
        || Blames(ArenaTooLarge, codec, oldFile, newFile, allowPartial)
        || Blames(NewTruncated, codec, oldFile, newFile, allowPartial)
        || Blames(IdentityMismatch, codec, oldFile, newFile, allowPartial))
  }

  /** The table has one entry per distinct address. */
  lemma TableSize(ents: seq<NewEnt>, arena: seq<byte>, news: seq<Rec>)
    requires Table(ents, arena, news)
    ensures |ents| == |Keys(RecIp, news)|
  {
    hide FirstWith, Encodes;
    StrictIsDistinct(EntIp, ents);
    DistinctSize(EntIp, ents);
    forall ip ensures ip in Keys(EntIp, ents) <==> ip in Keys(RecIp, news) {
      if ip in Keys(EntIp, ents) {
        var k :| 0 <= k < |ents| && EntIp(ents[k]) == ip;
        var r := FirstWith(RecIp, news, ents[k].ip).value;
        var i :| 0 <= i < |news| && news[i] == r;
        assert RecIp(news[i]) == ip;
      }
      if ip in Keys(RecIp, news) {
        var i :| 0 <= i < |news| && RecIp(news[i]) == ip;
        assert HasEntry(ents, news[i].ip);
        var k :| 0 <= k < |ents| && ents[k].ip == ip;
        assert EntIp(ents[k]) == ip;
      }
    }
    assert Keys(EntIp, ents) == Keys(RecIp, news);
  }

  lemma EmptyTable()
    ensures Table([], [], [])
  {
  }

  /**
    `mergeShard`: accepted exactly when both files are usable; then the output
    file holds the merged records under the baseline's shard identity, with the
    counters advanced by the fate of every deduplicated baseline record.
    */
  method MergeShard(codec: Codec, oldFile: seq<byte>, newFile: Option<seq<byte>>, mask: uint16, allowPartial: bool,
                    seen: array<nat>, res: Result)
    returns (err: Option<MergeError>, file: seq<byte>,
             ghost chunks: seq<seq<Record>>, ghost blocks: seq<seq<Record>>)
    requires seen.Length == BITMAP_WORDS && |res.mergedCounts| == NUM_STATUS_CODES
    requires Loadable(codec, oldFile, newFile, allowPartial) ==>
               AllCountable(mask, ScanFile(codec, oldFile).recs, NewRecs(codec, newFile))
    modifies seen, res
    ensures err.None? <==> Mergeable(codec, oldFile, newFile, allowPartial)
    ensures err.Some? ==> Blames(err.value, codec, oldFile, newFile, allowPartial)
    ensures err.None? ==>
              var h := ParseHeader(oldFile).h;
              var olds, news := ScanFile(codec, oldFile).recs, NewRecs(codec, newFile);
              && Closed(codec, file, h.shards, h.shardId, chunks, blocks)
              && Flatten(chunks) == MergeAll(mask, Firsts(olds), news)
              && ParseHeader(file).h.created == (if newFile.None? then h.created else ParseHeader(newFile.value).h.created)
              && Accounted(old(res.Snap()), res.Snap(), mask, Firsts(olds), news)
              && res.oldDups == old(res.oldDups) + |olds| - |Firsts(olds)|
              && res.newDups == old(res.newDups) + |news| - |Keys(RecIp, news)|
              && res.unexpectedNew == old(res.unexpectedNew) + |Keys(RecIp, news)| - MatchedCount(mask, Firsts(olds), news)
  {
    hide ParseHeader, ScanFile, Table, Used, MergeAll, Firsts, FateCount, MatchedCount, Writer.Valid, Writer.Added, Closed,
         AllCountable, Accounted, Flatten, NewUsable, Keys;
    file, chunks, blocks := [], [], [];
    var parsed := ParseHeader(oldFile);
    if !parsed.HeaderOk? {
      return Some(OldHeader), file, chunks, blocks;
    }
    ghost var before := res.Snap();
    var loadErr, ents, arena, created := LoadChecked(codec, parsed.h, newFile, allowPartial, res, oldFile);
    if loadErr.Some? {
      return loadErr, file, chunks, blocks;
    }
    var recs, end := Scan(codec, oldFile);
    if end != Complete {
      return Some(BaselineScan(end)), file, chunks, blocks;
    }
    HeaderRanges(oldFile);
    if newFile.Some? {
      HeaderRanges(newFile.value);
    }
    TableSize(ents, arena, NewRecs(codec, newFile));
    var start: int64 := if created.Some? then created.value else parsed.h.created;
    var w := new Writer(codec, parsed.h.shards, parsed.h.shardId, start);
    MergeRecords(recs, mask, ents, arena, seen, w, res, NewRecs(codec, newFile));
    assert [] + MergeAll(mask, Firsts(recs), NewRecs(codec, newFile)) == MergeAll(mask, Firsts(recs), NewRecs(codec, newFile));
    w.Close();
    return None, w.file, w.chunks, w.blocks;
  }

  // ----- reading a merged file back -----

  lemma {:induction false} FirstOfPermutation<T>(key: T -> int, s: seq<T>, t: seq<T>, k: int)
    requires multiset(s) == multiset(t) && DistinctKeys(key, s)
    ensures FirstWith(key, s, k) == FirstWith(key, t, k)
  {
    hide FirstWith;
    DistinctPermutation(key, s, t);
    var a, b := FirstWith(key, s, k), FirstWith(key, t, k);
    if a.Some? {
      assert a.value in multiset(t);
      var i :| 0 <= i < |t| && t[i] == a.value;
      FirstOfDistinct(key, t, i);
    } else {
      forall j | 0 <= j < |t| ensures key(t[j]) != k {
        assert t[j] in multiset(s);
      }
    }
  }

  lemma {:induction false} StoredFirst(added: seq<Record>, ip: int)
    ensures FirstWith(RecIp, StoredAll(added), ip) == StoredAt(FirstWith(RecordIp, added, ip))
  {
    hide StoredAll, DecodedNames, Code;
    if added == [] {
      assert StoredAll(added) == [];
    } else {
      var init, x := added[..|added| - 1], added[|added| - 1];
      StoredFirst(init, ip);
      assert added == init + [x];
      StoredAllConcat(init, [x]);
      StoredAllOne(x);
      assert StoredAll(added)[..|init|] == StoredAll(init);
    }
  }

  lemma {:induction false} StoredDistinct(added: seq<Record>)
    requires DistinctKeys(RecordIp, added)
    ensures DistinctKeys(RecIp, StoredAll(added))
  {
    hide StoredAll, DecodedNames, Code;
    if added == [] {
      assert StoredAll(added) == [];
    } else {
      var init, x := added[..|added| - 1], added[|added| - 1];
      StoredDistinct(init);
      assert added == init + [x];
      StoredAllConcat(init, [x]);
      StoredAllOne(x);
      StoredFirst(init, x.ip);
    }
  }

  /**
    The merged file, read back, holds for every address exactly the stored form of
    the documented rule, and nothing for an address outside the baseline.
    */
  lemma MergedFileIsMap(codec: Codec, file: seq<byte>, shards: uint16, shardId: uint16,
                        chunks: seq<seq<Record>>, blocks: seq<seq<Record>>,
                        mask: uint16, olds: seq<Rec>, news: seq<Rec>)
    requires codec.Valid() && Closed(codec, file, shards, shardId, chunks, blocks)
    requires forall b | b in blocks :: Fits(codec, b)
    requires Flatten(chunks) == MergeAll(mask, Firsts(olds), news)
    ensures ScanFile(codec, file).end == Complete
    ensures DistinctKeys(RecIp, ScanFile(codec, file).recs)
    ensures forall ip ::
              FirstWith(RecIp, ScanFile(codec, file).recs, ip) == StoredAt(MergedAt(mask, olds, news, ip))
  {
    hide ScanFile, FirstWith, MergeAll, Firsts, MergedAt, StoredAll, Delivered, Fits, Closed, ParseHeader, IsBlockOf,
         Flatten, StoredAt, CountKey, MergedRecord;
    ClosedReadsBack(codec, file, shards, shardId, chunks, blocks);
    var added := Flatten(chunks);
    MergeIsMap(mask, olds, news);
    StoredDistinct(added);
    DistinctPermutation(RecIp, StoredAll(added), Delivered(blocks));
    forall ip ensures FirstWith(RecIp, Delivered(blocks), ip) == StoredAt(MergedAt(mask, olds, news, ip)) {
      FirstOfPermutation(RecIp, StoredAll(added), Delivered(blocks), ip);
      StoredFirst(added, ip);
    }
  }

  /** Merging the merged file again with the same new pass leaves every address as it was. */
  lemma MergeFileTwice(mask: uint16, olds: seq<Rec>, news: seq<Rec>, once: seq<Rec>, twice: seq<Rec>)
    requires AllCountable(mask, olds, news)
    requires forall ip :: FirstWith(RecIp, once, ip) == StoredAt(MergedAt(mask, olds, news, ip))
    requires forall ip :: FirstWith(RecIp, twice, ip) == StoredAt(MergedAt(mask, once, news, ip))
    ensures forall ip :: FirstWith(RecIp, twice, ip) == FirstWith(RecIp, once, ip)
  {
    hide FirstWith, MergedAt, StoredAt, AllCountable;
    forall ip ensures FirstWith(RecIp, twice, ip) == FirstWith(RecIp, once, ip) {
      MergeIdempotent(mask, olds, news, once, ip);
    }
  }

  lemma {:induction false} StoredAssigned(added: seq<Record>)
    ensures forall r | r in StoredAll(added) :: AssignedStatus(r)
  {
    hide DecodedNames;
    if added != [] {
      StoredAssigned(added[1..]);
    }
  }

  /** Files this writer closed only hold assigned status codes, as merging requires. */
  lemma ClosedStatusesAssigned(codec: Codec, file: seq<byte>, shards: uint16, shardId: uint16,
                               chunks: seq<seq<Record>>, blocks: seq<seq<Record>>)
    requires codec.Valid() && Closed(codec, file, shards, shardId, chunks, blocks)
    requires forall b | b in blocks :: Fits(codec, b)
    ensures forall r | r in ScanFile(codec, file).recs :: AssignedStatus(r)
  {
    hide ScanFile, StoredAll, Delivered, Fits, Closed, ParseHeader, IsBlockOf, Flatten, AssignedStatus, CountKey;
    ClosedReadsBack(codec, file, shards, shardId, chunks, blocks);
    StoredAssigned(Flatten(chunks));
    forall r | r in Delivered(blocks) ensures AssignedStatus(r) {
      assert r in multiset(StoredAll(Flatten(chunks)));
    }
  }
}
