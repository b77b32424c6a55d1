/**
  Whole files across writer sessions: what is added in any number of
  create/resume, add, close rounds is what `Scan` and `ReadHeader` report.
  */
module Sessions {
  import opened Model
  import opened Block
  import opened Counting
  import opened Reader
  import opened Writer

  // ----- a scan delivers the stored form of every addition exactly once -----

  lemma {:induction false} StoredAllConcat(s: seq<Record>, t: seq<Record>)
    ensures StoredAll(s + t) == StoredAll(s) + StoredAll(t)
  {
    hide Stored;
    if s == [] {
      assert s + t == t;
    } else {
      StoredAllConcat(s[1..], t);
      assert (s + t)[1..] == s[1..] + t && (s + t)[0] == s[0];
      var x, a, b := Stored(s[0]), StoredAll(s[1..]), StoredAll(t);
      assert [x] + (a + b) == ([x] + a) + b;
    }
  }

  lemma StoredAllOne(x: Record)
    ensures StoredAll([x]) == [Stored(x)]
  {
  }

  lemma StoredSplit(t: seq<Record>, i: nat)
    requires i < |t|
    ensures StoredAll(t) == StoredAll(t[..i]) + [Stored(t[i])] + StoredAll(t[i + 1..])
  {
    hide Stored, StoredAll;
    var before, x, behind := t[..i], t[i], t[i + 1..];
    assert t == before + [x] + behind;
    StoredMiddle(before, x, behind);
  }

  lemma StoredMiddle(a: seq<Record>, x: Record, b: seq<Record>)
    ensures StoredAll(a + [x] + b) == StoredAll(a) + [Stored(x)] + StoredAll(b)
  {
    hide Stored, StoredAll;
    StoredAllConcat(a, [x]);
    StoredAllConcat(a + [x], b);
    StoredAllOne(x);
  }

  lemma MultisetMiddle<T>(a: seq<T>, x: T, b: seq<T>)
    ensures multiset(a + [x] + b) == multiset(a + b) + multiset{x}
  {
  }

  lemma StoredRemove(t: seq<Record>, i: nat)
    requires i < |t|
    ensures multiset(StoredAll(t)) == multiset(StoredAll(t[..i] + t[i + 1..])) + multiset{Stored(t[i])}
  {
    hide Stored, StoredAll;
    StoredSplit(t, i);
    StoredAllConcat(t[..i], t[i + 1..]);
    MultisetMiddle(StoredAll(t[..i]), Stored(t[i]), StoredAll(t[i + 1..]));
  }

  lemma {:induction false} StoredPermutation(s: seq<Record>, t: seq<Record>)
    requires multiset(s) == multiset(t)
    ensures multiset(StoredAll(s)) == multiset(StoredAll(t))
    decreases |s|
  {
    hide Stored, StoredAll;
    if s == [] {
      assert |multiset(t)| == 0;
    } else {
      var n := |s| - 1;
      assert s[..n] + s[n + 1..] == s[..n] && s == s[..n] + [s[n]];
      assert s[n] in multiset(t);
      var i :| 0 <= i < |t| && t[i] == s[n];
      WithoutOne(s[..n], s[n], t, i);
      StoredPermutation(s[..n], t[..i] + t[i + 1..]);
      StoredRemove(s, n);
      StoredRemove(t, i);
    }
  }

  lemma {:induction false} DeliveredOnce(chunks: seq<seq<Record>>, blocks: seq<seq<Record>>)
    requires |chunks| == |blocks| && forall i | 0 <= i < |blocks| :: IsBlockOf(blocks[i], chunks[i])
    ensures multiset(Delivered(blocks)) == multiset(StoredAll(Flatten(chunks)))
    decreases |blocks|
  {
    hide StoredAll;
    if blocks == [] {
      assert StoredAll([]) == [];
    } else {
      var n := |blocks| - 1;
      DeliveredOnce(chunks[..n], blocks[..n]);
      StoredPermutation(blocks[n], chunks[n]);
      StoredAllConcat(Flatten(chunks[..n]), chunks[n]);
    }
  }

  lemma {:induction false} StoredHistogram(s: seq<Record>, c: int)
    ensures CountKey(RecStatus, StoredAll(s), c) == CountKey(RecordCode, s, c)
  {
    hide StoredAll;
    if s == [] {
      assert StoredAll(s) == [];
    } else {
      var init, x := s[..|s| - 1], s[|s| - 1];
      StoredHistogram(init, c);
      assert s == init + [x];
      StoredAllConcat(init, [x]);
      StoredAllOne(x);
      CountKeySnoc(RecStatus, StoredAll(init), Stored(x), c);
    }
  }

  /** The totals kept for the additions are the totals of the records a scan delivers. */
  lemma TalliesOfDelivered(total: nat, counts: seq<nat>, chunks: seq<seq<Record>>, blocks: seq<seq<Record>>)
    requires |chunks| == |blocks| && forall i | 0 <= i < |blocks| :: IsBlockOf(blocks[i], chunks[i])
    requires Tallies(total, counts, Flatten(chunks))
    ensures total == |Delivered(blocks)| % U64
    ensures forall c | 0 <= c < NUM_STATUS_CODES :: counts[c] == CountKey(RecStatus, Delivered(blocks), c) % U64
  {
    hide IsBlockOf, CountKey, Flatten, Delivered;
    var added := Flatten(chunks);
    DeliveredOnce(chunks, blocks);
    assert |multiset(Delivered(blocks))| == |multiset(StoredAll(added))|;
    forall c | 0 <= c < NUM_STATUS_CODES
      ensures CountKey(RecStatus, Delivered(blocks), c) == CountKey(RecordCode, added, c)
    {
      CountKeyPermutation(RecStatus, Delivered(blocks), StoredAll(added), c);
      StoredHistogram(added, c);
    }
  }

  /** A block is as bounded as its chunk, so resolver-sized additions always fit their length fields. */
  lemma BoundedAdditionsFit(codec: Codec, chunks: seq<seq<Record>>, blocks: seq<seq<Record>>)
    requires codec.Valid()
    requires |chunks| == |blocks| && forall i | 0 <= i < |blocks| :: IsBlockOf(blocks[i], chunks[i])
    requires forall r | r in Flatten(chunks) :: BoundedNames(r)
    ensures forall b | b in blocks :: Fits(codec, b)
  {
    hide Fits, BoundedNames;
    forall i | 0 <= i < |blocks| ensures Fits(codec, blocks[i]) {
      forall r | r in blocks[i] ensures BoundedNames(r) {
        assert r in multiset(blocks[i]);
        assert r in chunks[i];
        InFlatten(chunks, i, r);
      }
      assert |multiset(blocks[i])| == |multiset(chunks[i])|;
      BoundedBlockFits(codec, blocks[i]);
    }
  }

  lemma {:induction false} InFlatten<T>(ss: seq<seq<T>>, i: nat, x: T)
    requires i < |ss| && x in ss[i]
    ensures x in Flatten(ss)
  {
    if i < |ss| - 1 {
      InFlatten(ss[..|ss| - 1], i, x);
    }
  }

  // ----- any number of sessions on one file -----

  datatype Session = Session(now: int64, adds: seq<Record>)

  function AllAdds(sessions: seq<Session>): seq<Record> {
    if sessions == [] then [] else AllAdds(sessions[..|sessions| - 1]) + sessions[|sessions| - 1].adds
  }

  /** What a file promises after sessions that added `added` in total. */
  ghost predicate ReadsBack(codec: Codec, file: seq<byte>, shards: uint16, shardId: uint16,
                            added: seq<Record>, chunks: seq<seq<Record>>, blocks: seq<seq<Record>>) {
    // the additions, in order, cut into chunks; each block is a sorted permutation of its chunk
    && Flatten(chunks) == added
    && |chunks| == |blocks| && (forall i | 0 <= i < |blocks| :: IsBlockOf(blocks[i], chunks[i]))
    // the scan is clean and delivers the stored form of every addition exactly once
    && ((forall b | b in blocks :: Fits(codec, b)) ==> ScanFile(codec, file) == Scanned(Delivered(blocks), Complete))
    && multiset(Delivered(blocks)) == multiset(StoredAll(added))
    // record by record: status, FCrDNS outcome and names are those of an addition, each used once
    && multiset(Flatten(blocks)) == multiset(added) && |Delivered(blocks)| == |Flatten(blocks)|
    && (forall k | 0 <= k < |Delivered(blocks)| :: Survives(Flatten(blocks)[k], Delivered(blocks)[k]))
    // the header carries the shard identity and the totals of exactly those records
    && ParseHeader(file).HeaderOk?
    && var h := ParseHeader(file).h;
       && h.shards == shards && h.shardId == shardId
       && h.total == |Delivered(blocks)| % U64
       && |h.counts| == NUM_STATUS_CODES
       && forall c | 0 <= c < NUM_STATUS_CODES :: h.counts[c] == CountKey(RecStatus, Delivered(blocks), c) % U64
  }

  lemma {:induction false} BlocksPermute(chunks: seq<seq<Record>>, blocks: seq<seq<Record>>)
    requires |chunks| == |blocks| && forall i | 0 <= i < |blocks| :: IsBlockOf(blocks[i], chunks[i])
    ensures multiset(Flatten(blocks)) == multiset(Flatten(chunks))
  {
    if blocks != [] {
      var n := |blocks| - 1;
      BlocksPermute(chunks[..n], blocks[..n]);
      assert IsBlockOf(blocks[n], chunks[n]);
    }
  }

  lemma {:induction false} StoredAllSurvive(block: seq<Record>)
    ensures forall k | 0 <= k < |block| :: Survives(block[k], StoredAll(block)[k])
  {
    hide Survives, Stored;
    if block != [] {
      StoredSurvives(block[0]);
      StoredAllSurvive(block[1..]);
      forall k | 0 < k < |block| ensures Survives(block[k], StoredAll(block)[k]) {
        assert block[k] == block[1..][k - 1] && StoredAll(block)[k] == StoredAll(block[1..])[k - 1];
      }
    }
  }

  lemma {:induction false} DeliveredSurvive(blocks: seq<seq<Record>>)
    ensures |Delivered(blocks)| == |Flatten(blocks)|
    ensures forall k | 0 <= k < |Delivered(blocks)| :: Survives(Flatten(blocks)[k], Delivered(blocks)[k])
  {
    hide Survives, StoredAll;
    if blocks != [] {
      var n := |blocks| - 1;
      DeliveredSurvive(blocks[..n]);
      StoredAllSurvive(blocks[n]);
    }
  }

  lemma ClosedReadsBack(codec: Codec, file: seq<byte>, shards: uint16, shardId: uint16,
                        chunks: seq<seq<Record>>, blocks: seq<seq<Record>>)
    requires codec.Valid() && Closed(codec, file, shards, shardId, chunks, blocks)
    ensures ReadsBack(codec, file, shards, shardId, Flatten(chunks), chunks, blocks)
  {
    hide Frames, Flatten, Delivered, StoredAll, CountKey, Fits, ScanFile, ParseHeader, IsBlockOf, Survives;
    BlocksPermute(chunks, blocks);
    DeliveredSurvive(blocks);
    var h := ParseHeader(file).h;
    TalliesOfDelivered(h.total, h.counts, chunks, blocks);
    DeliveredOnce(chunks, blocks);
    if forall b | b in blocks :: Fits(codec, b) {
      FileRoundTrip(codec, file, blocks);
    }
  }

  /** One session: open (fresh or resumed), add everything, close. */
  method RunSession(codec: Codec, existing: Option<seq<byte>>, shards: uint16, shardId: uint16, s: Session,
                    ghost chunks: seq<seq<Record>>, ghost blocks: seq<seq<Record>>)
    returns (file: seq<byte>, ghost chunks': seq<seq<Record>>, ghost blocks': seq<seq<Record>>)
    requires existing.Some? ==> Closed(codec, existing.value, shards, shardId, chunks, blocks)
    requires existing.None? ==> chunks == [] && blocks == []
    ensures Closed(codec, file, shards, shardId, chunks', blocks')
    ensures Flatten(chunks') == Flatten(chunks) + s.adds
  {
    hide Frames, Flatten, ParseHeader, Tallies, IsBlockOf;
    var w, err := Resume(codec, existing, shards, shardId, s.now, chunks, blocks);
    FlattenEmpty<Record>();
    assert w != null && w.Valid() && w.Added() == Flatten(chunks);
    var i := 0;
    assert Flatten(chunks) + s.adds[..0] == Flatten(chunks);
    while i < |s.adds|
      invariant 0 <= i <= |s.adds|
      invariant w.Valid() && w.Added() == Flatten(chunks) + s.adds[..i]
    {
      w.Add(s.adds[i]);
      assert Flatten(chunks) + s.adds[..i] + [s.adds[i]] == Flatten(chunks) + s.adds[..i + 1];
      i := i + 1;
    }
    assert s.adds[..|s.adds|] == s.adds;
    w.Close();
    return w.file, w.chunks, w.blocks;
  }

  lemma FlattenEmpty<T>()
    ensures Flatten<T>([]) == []
  {
  }

  /**
    Any number of sessions on one file, each ending in Close: the file reads back
    as exactly the additions of all sessions, with cumulative totals.
    */
  method RunSessions(codec: Codec, shards: uint16, shardId: uint16, sessions: seq<Session>)
    returns (file: seq<byte>, ghost chunks: seq<seq<Record>>, ghost blocks: seq<seq<Record>>)
    requires codec.Valid() && |sessions| > 0
    ensures ReadsBack(codec, file, shards, shardId, AllAdds(sessions), chunks, blocks)
    ensures (forall r | r in AllAdds(sessions) :: BoundedNames(r)) ==> forall b | b in blocks :: Fits(codec, b)
  {
    hide Frames, Flatten, ParseHeader, Tallies, IsBlockOf, ReadsBack, Closed, BoundedNames, Fits;
    var current: Option<seq<byte>> := None;
    chunks, blocks := [], [];
    FlattenEmpty<Record>();
    var k := 0;
    while k < |sessions|
      invariant 0 <= k <= |sessions|
      invariant current.Some? <==> k > 0
      invariant current.None? ==> chunks == [] && blocks == []
      invariant current.Some? ==> Closed(codec, current.value, shards, shardId, chunks, blocks)
      invariant Flatten(chunks) == AllAdds(sessions[..k])
    {
      var next, chunks', blocks' := RunSession(codec, current, shards, shardId, sessions[k], chunks, blocks);
      assert sessions[..k + 1][..k] == sessions[..k];
      current, chunks, blocks := Some(next), chunks', blocks';
      k := k + 1;
    }
    assert sessions[..|sessions|] == sessions;
    file := current.value;
    ClosedReadsBack(codec, file, shards, shardId, chunks, blocks);
    if forall r | r in AllAdds(sessions) :: BoundedNames(r) {
      ClosedFits(codec, file, shards, shardId, chunks, blocks);
    }
  }

  lemma ClosedFits(codec: Codec, file: seq<byte>, shards: uint16, shardId: uint16,
                   chunks: seq<seq<Record>>, blocks: seq<seq<Record>>)
    requires codec.Valid() && Closed(codec, file, shards, shardId, chunks, blocks)
    requires forall r | r in Flatten(chunks) :: BoundedNames(r)
    ensures forall b | b in blocks :: Fits(codec, b)
  {
    BoundedAdditionsFit(codec, chunks, blocks);
  }
}
