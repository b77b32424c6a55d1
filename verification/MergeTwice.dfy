/**
  Merged files as inputs again: merging files with names of resolver size gives a
  file that is read back whole, can be merged once more, and is then left as it is.
  */
module MergeTwice {
  import opened Model
  import opened Counting
  import opened Sorting
  import opened Bytes
  import opened Block
  import opened Names
  import opened Reader
  import opened Writer
  import opened Sessions
  import opened MergeSpec
  import opened MergeLaws
  import opened MergeRule
  import opened MergeFiles
  import opened Merge
  import Template

  // ----- names that survive storage -----

  /** No longer than the resolver can deliver, and free of template markers. */
  predicate Clean(n: Name) {
    |n| <= MAX_NAME_TEXT && Template.MarkerFree(n)
  }

  predicate AllClean(names: seq<Name>) {
    forall n | n in names :: Clean(n)
  }

  predicate CleanRecs(recs: seq<Rec>) {
    forall r | r in recs :: AllClean(r.ptr)
  }

  /** What a caller has to know: the names of the records are of resolver size. */
  predicate ShortNames(recs: seq<Rec>) {
    forall r | r in recs :: forall n | n in r.ptr :: |n| <= MAX_NAME_TEXT
  }

  lemma {:induction false} SplitPieces(s: Name)
    ensures forall n | n in Split(s) :: |n| <= |s| && (Template.MarkerFree(s) ==> Template.MarkerFree(n))
  {
    if s != [] {
      SplitPieces(s[1..]);
      assert Split(s[1..])[0] in Split(s[1..]);
    }
  }

  lemma SplitClean(s: Name)
    requires Clean(s)
    ensures AllClean(Split(s))
  {
    hide Template.MarkerFree;
    SplitPieces(s);
  }

  /** The trip through the arena keeps names clean, also when a NUL cuts one in two. */
  lemma {:induction false} RejoinedClean(names: seq<Name>)
    requires AllClean(names)
    ensures AllClean(Rejoined(names))
  {
    hide Split, Clean;
    if names == [] {
      assert AllClean(Split([])) by { SplitClean([]) by { NothingClean(); } }
    } else {
      assert Clean(names[0]);
      SplitClean(names[0]);
      if |names| > 1 {
        RejoinedClean(names[1..]);
        SplitConcat(names[0], Join(names[1..]));
      }
    }
  }

  lemma NothingClean()
    ensures Clean([])
  {
  }

  lemma MergedClean(mask: uint16, o: Rec, n: Option<Rec>)
    requires AllClean(o.ptr) && (n.Some? ==> AllClean(n.value.ptr))
    ensures AllClean(MergedRecord(mask, o, n).ptr)
  {
    hide MaskHas, Rejoined, Clean, StatusString;
    if n.Some? {
      RejoinedClean(n.value.ptr);
    }
  }

  lemma {:induction false} MergeAllClean(mask: uint16, olds: seq<Rec>, news: seq<Rec>)
    requires CleanRecs(olds) && CleanRecs(news)
    ensures forall x | x in MergeAll(mask, olds, news) :: AllClean(x.ptr)
  {
    hide MergedRecord, AllClean, FirstWith;
    if olds != [] {
      var o := olds[|olds| - 1];
      MergeAllClean(mask, olds[..|olds| - 1], news);
      MergedClean(mask, o, FirstWith(RecIp, news, o.ip));
    }
  }

  lemma {:induction false} FirstsSubset(recs: seq<Rec>)
    ensures forall r | r in Firsts(recs) :: r in recs
  {
    hide FirstWith;
    if recs != [] {
      FirstsSubset(recs[..|recs| - 1]);
    }
  }

  lemma StoredClean(x: Record)
    requires AllClean(x.ptr)
    ensures AllClean(Stored(x).ptr)
  {
    hide Template.MarkerFree, Code;
    forall n | n in KeptNames(x) ensures n in x.ptr {
    }
    StoredKeepsNames(x);
  }

  lemma {:induction false} StoredAllClean(added: seq<Record>)
    requires forall x | x in added :: AllClean(x.ptr)
    ensures CleanRecs(StoredAll(added))
  {
    hide Stored, AllClean;
    if added != [] {
      StoredClean(added[0]);
      StoredAllClean(added[1..]);
    }
  }

  // ----- what a scan delivers is free of markers -----

  predicate Unmarked(recs: seq<Rec>) {
    forall r | r in recs :: forall n | n in r.ptr :: Template.MarkerFree(n)
  }

  lemma {:induction false} NamesUnmarked(raw: seq<byte>, off: nat, ip: uint32, count: nat)
    requires off <= |raw|
    ensures var d := DecodeNames(raw, off, ip, count);
            d.Got? ==> forall n | n in d.value :: Template.MarkerFree(n)
    decreases count
  {
    hide Template.Decode, Template.MarkerFree, Uvarint;
    if count > 0 {
      var d := DecodeName(raw, off, ip);
      if d.Got? {
        NamesUnmarked(raw, d.off, ip, count - 1);
        NameUnmarked(raw, off, ip);
      }
    }
  }

  lemma NameUnmarked(raw: seq<byte>, off: nat, ip: uint32)
    requires off <= |raw|
    ensures var d := DecodeName(raw, off, ip);
            d.Got? ==> Template.MarkerFree(d.value)
  {
    hide Template.Decode, Template.MarkerFree, Uvarint;
    forall s: Name ensures Template.MarkerFree(Template.Decode(ip, s)) {
      Template.DecodeIsMarkerFree(ip, s);
    }
  }

  lemma RecUnmarked(raw: seq<byte>, off: nat, prev: uint32)
    requires off <= |raw|
    ensures var d := DecodeRec(raw, off, prev);
            d.Got? ==> forall n | n in d.value.ptr :: Template.MarkerFree(n)
  {
    hide Template.MarkerFree, Uvarint, DecodeNames;
    forall at: nat, ip: uint32, count: nat | at <= |raw|
      ensures var d := DecodeNames(raw, at, ip, count);
              d.Got? ==> forall n | n in d.value :: Template.MarkerFree(n)
    {
      NamesUnmarked(raw, at, ip, count);
    }
  }

  lemma {:induction false} PayloadUnmarked(raw: seq<byte>, off: nat, prev: uint32)
    requires off <= |raw|
    ensures Unmarked(DecodeFrom(raw, off, prev).recs)
    decreases |raw| - off
  {
    hide Template.MarkerFree, DecodeRec;
    if off < |raw| {
      RecUnmarked(raw, off, prev);
      var d := DecodeRec(raw, off, prev);
      if d.Got? {
        PayloadUnmarked(raw, d.off, d.value.ip);
      }
    }
  }

  lemma {:induction false} FramesUnmarked(codec: Codec, b: seq<byte>)
    ensures Unmarked(ScanFrames(codec, b).recs)
    decreases |b|
  {
    hide Template.MarkerFree, DecodeFrom;
    if |b| >= FRAME_HEADER && |b| >= FRAME_HEADER + CompLen(b) {
      var next := FRAME_HEADER + CompLen(b);
      var raw := codec.decompress(b[FRAME_HEADER..next]);
      if raw.Some? {
        PayloadUnmarked(raw.value, 0, 0);
        FramesUnmarked(codec, b[next..]);
      }
    }
  }

  /** Whatever bytes a file holds, no marker reaches the callback. */
  lemma ScanUnmarked(codec: Codec, file: seq<byte>)
    ensures Unmarked(ScanFile(codec, file).recs)
  {
    hide ScanFrames;
    if |file| >= HEADER_SIZE {
      FramesUnmarked(codec, file[HEADER_SIZE..]);
    }
  }

  lemma ScannedIsClean(codec: Codec, file: seq<byte>)
    requires ShortNames(ScanFile(codec, file).recs)
    ensures CleanRecs(ScanFile(codec, file).recs)
  {
    hide ScanFile, Template.MarkerFree;
    ScanUnmarked(codec, file);
  }

  // ----- the merged file -----

  /** The file `MergeShard` leaves for these records. */
  ghost predicate MergedFrom(codec: Codec, file: seq<byte>, shards: uint16, shardId: uint16,
                             chunks: seq<seq<Record>>, blocks: seq<seq<Record>>,
                             mask: uint16, olds: seq<Rec>, news: seq<Rec>) {
    Closed(codec, file, shards, shardId, chunks, blocks) && Flatten(chunks) == MergeAll(mask, Firsts(olds), news)
  }

  lemma MergedFits(codec: Codec, file: seq<byte>, shards: uint16, shardId: uint16,
                   chunks: seq<seq<Record>>, blocks: seq<seq<Record>>,
                   mask: uint16, olds: seq<Rec>, news: seq<Rec>)
    requires codec.Valid() && MergedFrom(codec, file, shards, shardId, chunks, blocks, mask, olds, news)
    requires CleanRecs(olds) && CleanRecs(news)
    ensures forall b | b in blocks :: Fits(codec, b)
    ensures forall x | x in Flatten(chunks) :: AllClean(x.ptr)
  {
    hide Closed, MergeAll, Firsts, Fits, Flatten, Template.MarkerFree;
    FirstsSubset(olds);
    MergeAllClean(mask, Firsts(olds), news);
    forall x | x in Flatten(chunks) ensures BoundedNames(x) {
      assert AllClean(x.ptr);
    }
    ClosedFits(codec, file, shards, shardId, chunks, blocks);
  }

  /**
    Merging records with names of resolver size: the merged file is read back
    whole, holds at every address the stored form of the rule and nothing
    elsewhere, and its own names are of resolver size again.
    */
  lemma MergedFileReads(codec: Codec, file: seq<byte>, shards: uint16, shardId: uint16,
                        chunks: seq<seq<Record>>, blocks: seq<seq<Record>>,
                        mask: uint16, olds: seq<Rec>, news: seq<Rec>)
    requires codec.Valid() && MergedFrom(codec, file, shards, shardId, chunks, blocks, mask, olds, news)
    requires CleanRecs(olds) && CleanRecs(news)
    ensures ScanFile(codec, file).end == Complete && DistinctKeys(RecIp, ScanFile(codec, file).recs)
    ensures forall ip :: FirstWith(RecIp, ScanFile(codec, file).recs, ip) == StoredAt(MergedAt(mask, olds, news, ip))
    ensures CleanRecs(ScanFile(codec, file).recs)
  {
    hide ScanFile, FirstWith, MergeAll, Firsts, MergedAt, StoredAll, Delivered, Fits, Closed, ParseHeader, IsBlockOf,
         Flatten, StoredAt, CountKey, AllClean;
    MergedFits(codec, file, shards, shardId, chunks, blocks, mask, olds, news);
    MergedFileIsMap(codec, file, shards, shardId, chunks, blocks, mask, olds, news);
    ClosedReadsBack(codec, file, shards, shardId, chunks, blocks);
    StoredAllClean(Flatten(chunks));
    forall r | r in Delivered(blocks) ensures AllClean(r.ptr) {
      assert r in multiset(StoredAll(Flatten(chunks)));
    }
  }

  /**
    The documented rule at one address, on the records read from the three files:
    none without a baseline record, and between well-formed records the winner.
    */
  ghost predicate RuleAt(mask: uint16, olds: seq<Rec>, news: seq<Rec>, merged: seq<Rec>, ip: int) {
    var o, n, m := FirstWith(RecIp, olds, ip), FirstWith(RecIp, news, ip), FirstWith(RecIp, merged, ip);
    && (o.None? ==> m.None?)
    && (o.Some? && WellFormed(o.value) && (n.Some? ==> WellFormed(n.value)) ==> m == Some(Winner(mask, o.value, n)))
  }

  lemma RuleHolds(mask: uint16, olds: seq<Rec>, news: seq<Rec>, merged: seq<Rec>, ip: int)
    requires FirstWith(RecIp, merged, ip) == StoredAt(MergedAt(mask, olds, news, ip))
    ensures RuleAt(mask, olds, news, merged, ip)
  {
    hide FirstWith, WellFormed, MergedRecord, Stored, Winner;
    var o, n := FirstWith(RecIp, olds, ip), FirstWith(RecIp, news, ip);
    if o.Some? && WellFormed(o.value) && (n.Some? ==> WellFormed(n.value)) {
      RuleOnRecords(mask, o.value, n);
    }
  }

  /** Records of a closed file are well-formed, but for has_ptr records without names or with a NUL in one. */
  lemma ClosedWellFormed(codec: Codec, file: seq<byte>, shards: uint16, shardId: uint16,
                         chunks: seq<seq<Record>>, blocks: seq<seq<Record>>)
    requires codec.Valid() && Closed(codec, file, shards, shardId, chunks, blocks)
    requires forall b | b in blocks :: Fits(codec, b)
    ensures forall r | r in ScanFile(codec, file).recs ::
              WellFormed(r) <==> (r.status == 0 ==> r.ptr != [] && forall n | n in r.ptr :: NulFree(n))
  {
    hide ScanFile, StoredAll, Delivered, Fits, Closed, ParseHeader, IsBlockOf, Flatten, CountKey, WellFormed, NulFree, Survives;
    ClosedReadsBack(codec, file, shards, shardId, chunks, blocks);
    var added := Flatten(chunks);
    forall r | r in Delivered(blocks)
      ensures WellFormed(r) <==> (r.status == 0 ==> r.ptr != [] && forall n | n in r.ptr :: NulFree(n))
    {
      assert r in multiset(StoredAll(added));
      var x := StoredOf(added, r);
      StoredWellFormed(x);
    }
  }

  lemma {:induction false} StoredOf(added: seq<Record>, r: Rec) returns (x: Record)
    requires r in StoredAll(added)
    ensures x in added && r == Stored(x)
  {
    hide Stored;
    if r == Stored(added[0]) {
      x := added[0];
    } else {
      x := StoredOf(added[1..], r);
    }
  }

  /** The same of files: a scan never delivers markers, so short names are enough. */
  lemma MergedFilesRead(codec: Codec, oldFile: seq<byte>, newFile: Option<seq<byte>>, mask: uint16,
                        file: seq<byte>, shards: uint16, shardId: uint16,
                        chunks: seq<seq<Record>>, blocks: seq<seq<Record>>)
    requires codec.Valid()
    requires MergedFrom(codec, file, shards, shardId, chunks, blocks, mask, ScanFile(codec, oldFile).recs, NewRecs(codec, newFile))
    requires ShortNames(ScanFile(codec, oldFile).recs) && ShortNames(NewRecs(codec, newFile))
    ensures ScanFile(codec, file).end == Complete && DistinctKeys(RecIp, ScanFile(codec, file).recs)
    ensures forall ip :: FirstWith(RecIp, ScanFile(codec, file).recs, ip)
                      == StoredAt(MergedAt(mask, ScanFile(codec, oldFile).recs, NewRecs(codec, newFile), ip))
    ensures ShortNames(ScanFile(codec, file).recs)
    ensures forall ip :: RuleAt(mask, ScanFile(codec, oldFile).recs, NewRecs(codec, newFile), ScanFile(codec, file).recs, ip)
  {
    hide ScanFile, FirstWith, MergedAt, MergedFrom, StoredAt, Template.MarkerFree, RuleAt;
    ScannedIsClean(codec, oldFile);
    if newFile.Some? {
      ScannedIsClean(codec, newFile.value);
    }
    MergedFileReads(codec, file, shards, shardId, chunks, blocks, mask, ScanFile(codec, oldFile).recs, NewRecs(codec, newFile));
    forall ip ensures RuleAt(mask, ScanFile(codec, oldFile).recs, NewRecs(codec, newFile), ScanFile(codec, file).recs, ip) {
      RuleHolds(mask, ScanFile(codec, oldFile).recs, NewRecs(codec, newFile), ScanFile(codec, file).recs, ip);
    }
  }

  /**
    Per address of the merged file: a baseline PTR is lost exactly when has_ptr is
    re-crawled and the first new record is an authoritative negative, and one is
    gained exactly when the baseline status is re-crawled and the first new record
    has a PTR.
    */
  lemma PtrMovesAt(codec: Codec, oldFile: seq<byte>, newFile: Option<seq<byte>>, mask: uint16,
                   file: seq<byte>, shards: uint16, shardId: uint16,
                   chunks: seq<seq<Record>>, blocks: seq<seq<Record>>, ip: int)
    requires codec.Valid()
    requires MergedFrom(codec, file, shards, shardId, chunks, blocks, mask, ScanFile(codec, oldFile).recs, NewRecs(codec, newFile))
    requires ShortNames(ScanFile(codec, oldFile).recs) && ShortNames(NewRecs(codec, newFile))
    requires FirstWith(RecIp, ScanFile(codec, oldFile).recs, ip).Some?
    ensures var o := FirstWith(RecIp, ScanFile(codec, oldFile).recs, ip).value;
            var n := FirstWith(RecIp, NewRecs(codec, newFile), ip);
            var m := FirstWith(RecIp, ScanFile(codec, file).recs, ip);
            && m.Some?
            && (HasPtrCode(o.status) && !HasPtrCode(m.value.status)
                <==> HasPtrCode(o.status) && MaskHas(mask, CODE_HAS_PTR) && n.Some? && AuthoritativeNegative(n.value.status))
            && (!HasPtrCode(o.status) && HasPtrCode(m.value.status)
                <==> !HasPtrCode(o.status) && MaskHas(mask, o.status) && n.Some? && HasPtrCode(n.value.status))
  {
    hide ScanFile, FirstWith, MergedFrom, MaskHas, ShortNames, MergedRecord, DecodedNames;
    MergedFilesRead(codec, oldFile, newFile, mask, file, shards, shardId, chunks, blocks);
    var o := FirstWith(RecIp, ScanFile(codec, oldFile).recs, ip).value;
    PtrMoves(mask, o, FirstWith(RecIp, NewRecs(codec, newFile), ip));
  }

  // ----- merging again -----

  lemma StillCountable(mask: uint16, olds: seq<Rec>, news: seq<Rec>, again: seq<Rec>)
    requires AllCountable(mask, olds, news)
    requires forall ip :: FirstWith(RecIp, again, ip) == StoredAt(MergedAt(mask, olds, news, ip))
    ensures AllCountable(mask, again, news)
  {
    hide FirstWith, MergedRecord, Countable, Stored;
    forall ip | FirstWith(RecIp, again, ip).Some?
      ensures Countable(mask, FirstWith(RecIp, again, ip).value, FirstWith(RecIp, news, ip))
    {
      var o, n := FirstWith(RecIp, olds, ip), FirstWith(RecIp, news, ip);
      MergeRecordTwice(mask, o.value, n);
    }
  }

  /** A merged file is accepted as a baseline wherever its own baseline was. */
  lemma MergeableAgain(codec: Codec, oldFile: seq<byte>, newFile: Option<seq<byte>>, allowPartial: bool,
                       file: seq<byte>, chunks: seq<seq<Record>>, blocks: seq<seq<Record>>)
    requires Mergeable(codec, oldFile, newFile, allowPartial) && ScanFile(codec, file).end == Complete
    requires Closed(codec, file, ParseHeader(oldFile).h.shards, ParseHeader(oldFile).h.shardId, chunks, blocks)
    ensures Mergeable(codec, file, newFile, allowPartial)
  {
    hide ScanFile, ParseHeader, Flatten, Holds, Tallies;
  }

  lemma MergeableHeader(codec: Codec, oldFile: seq<byte>, newFile: Option<seq<byte>>, allowPartial: bool)
    requires Mergeable(codec, oldFile, newFile, allowPartial)
    ensures ParseHeader(oldFile).HeaderOk?
    ensures Loadable(codec, oldFile, newFile, allowPartial)
    ensures var h := ParseHeader(oldFile).h; h.shards < 0x1_0000 && h.shardId < 0x1_0000
  {
    hide ScanFile, ParseHeader, NewUsable;
    HeaderRanges(oldFile);
  }

  lemma CountersSized(before: Counters, after: Counters, mask: uint16, firsts: seq<Rec>, news: seq<Rec>)
    requires Accounted(before, after, mask, firsts, news)
    ensures |after.merged| == NUM_STATUS_CODES
  {
  }

  /**
    Merging twice: whatever was merged is accepted again with the same new file,
    and the second file holds the same record as the first at every address.
    */
  method MergeShardTwice(codec: Codec, oldFile: seq<byte>, newFile: Option<seq<byte>>, mask: uint16, allowPartial: bool,
                         seen: array<nat>, res: Result)
    returns (err: Option<MergeError>, once: seq<byte>, twice: seq<byte>)
    requires codec.Valid() && seen.Length == BITMAP_WORDS && |res.mergedCounts| == NUM_STATUS_CODES
    requires AllCountable(mask, ScanFile(codec, oldFile).recs, NewRecs(codec, newFile))
    requires ShortNames(ScanFile(codec, oldFile).recs) && ShortNames(NewRecs(codec, newFile))
    modifies seen, res
    ensures err.None? <==> Mergeable(codec, oldFile, newFile, allowPartial)
    ensures err.None? ==> ScanFile(codec, once).end == ScanFile(codec, twice).end == Complete
    ensures err.None? ==>
              forall ip :: RuleAt(mask, ScanFile(codec, oldFile).recs, NewRecs(codec, newFile), ScanFile(codec, once).recs, ip)
    ensures err.None? ==>
              forall ip :: FirstWith(RecIp, ScanFile(codec, twice).recs, ip) == FirstWith(RecIp, ScanFile(codec, once).recs, ip)
  {
    hide ScanFile, FirstWith, MergedAt, StoredAt, AllCountable, Mergeable, ShortNames, Closed, Accounted, MergeAll, Firsts,
         MatchedCount, Flatten, ParseHeader, Loadable, RuleAt, Keys;
    once, twice := [], [];
    ghost var c1, b1, c2, b2;
    err, once, c1, b1 := MergeShard(codec, oldFile, newFile, mask, allowPartial, seen, res);
    if err.None? {
      MergeableHeader(codec, oldFile, newFile, allowPartial);
      ghost var olds, news, h := ScanFile(codec, oldFile).recs, NewRecs(codec, newFile), ParseHeader(oldFile).h;
      MergedFilesRead(codec, oldFile, newFile, mask, once, h.shards, h.shardId, c1, b1);
      StillCountable(mask, olds, news, ScanFile(codec, once).recs);
      MergeableAgain(codec, oldFile, newFile, allowPartial, once, c1, b1);
      assert |res.mergedCounts| == NUM_STATUS_CODES by { CountersSized(old(res.Snap()), res.Snap(), mask, Firsts(olds), news); }
      var err2;
      err2, twice, c2, b2 := MergeShard(codec, once, newFile, mask, allowPartial, seen, res);
      MergeableHeader(codec, once, newFile, allowPartial);
      ghost var h2 := ParseHeader(once).h;
      MergedFilesRead(codec, once, newFile, mask, twice, h2.shards, h2.shardId, c2, b2);
      MergeFileTwice(mask, olds, news, ScanFile(codec, once).recs, ScanFile(codec, twice).recs);
    }
  }
}
