/** Laws of the merged dataset: idempotence and the balance of PTR records. */
module MergeLaws {
  import opened Model
  import opened Counting
  import opened Sorting
  import opened Block
  import opened Writer
  import opened MergeSpec
  import Template

  // ----- storing what was read back changes nothing -----

  lemma {:induction false} DecodedNamesStable(ip: uint32, names: seq<Name>)
    ensures DecodedNames(ip, DecodedNames(ip, names)) == DecodedNames(ip, names)
  {
    hide Template.Decode, Template.MarkerFree;
    if names != [] {
      DecodedNamesStable(ip, names[1..]);
      Template.DecodeIsMarkerFree(ip, names[0]);
      Template.DecodeMarkerFree(ip, Template.Decode(ip, names[0]));
    }
  }

  lemma StoredStable(x: Record)
    ensures Stored(ToRecord(Stored(x))) == Stored(x)
  {
    hide DecodedNames;
    DecodedNamesStable(x.ip, KeptNames(x));
  }

  // ----- idempotence -----

  lemma MergeRecordTwice(mask: uint16, o: Rec, n: Option<Rec>)
    requires Countable(mask, o, n)
    ensures var once := Stored(MergedRecord(mask, o, n));
            Stored(MergedRecord(mask, once, n)) == once && Countable(mask, once, n)
  {
    hide DecodedNames, MaskHas, Rejoined;
    StoredAsCounted(mask, o, n);
    StoredStable(MergedRecord(mask, o, n));
  }

  function StoredAt(r: Option<Record>): Option<Rec> {
    match r
    case None => None
    case Some(x) => Some(Stored(x))
  }

  /**
    Merging the merged dataset again with the same new pass gives the same stored
    record for every address. `again` is any file-order listing of the merged
    dataset as it is read back.
    */
  lemma MergeIdempotent(mask: uint16, olds: seq<Rec>, news: seq<Rec>, again: seq<Rec>, ip: int)
    requires AllCountable(mask, olds, news)
    requires FirstWith(RecIp, again, ip) == StoredAt(MergedAt(mask, olds, news, ip))
    ensures StoredAt(MergedAt(mask, again, news, ip)) == StoredAt(MergedAt(mask, olds, news, ip))
  {
    hide Stored, MergedRecord, Countable, FirstWith;
    var o, n := FirstWith(RecIp, olds, ip), FirstWith(RecIp, news, ip);
    if o.Some? {
      MergeRecordTwice(mask, o.value, n);
    }
  }

  // ----- PTR balance -----

  /** A baseline PTR disappears only through a new authoritative negative, and appears only through a new PTR. */
  lemma PtrMoves(mask: uint16, o: Rec, n: Option<Rec>)
    ensures var c := Code(MergedRecord(mask, o, n).status);
            && (HasPtrCode(o.status) ==>
                  (c != CODE_HAS_PTR <==> MaskHas(mask, o.status) && n.Some? && AuthoritativeNegative(n.value.status)))
            && (!HasPtrCode(o.status) ==>
                  (c == CODE_HAS_PTR <==> MaskHas(mask, o.status) && n.Some? && HasPtrCode(n.value.status)))
  {
    hide MaskHas, Rejoined;
  }

  lemma BalanceOne(mask: uint16, o: Rec, n: Option<Rec>)
    ensures var f, out := FateOf(mask, o, n), MergedRecord(mask, o, n);
            (if Code(out.status) == CODE_HAS_PTR then 1 else 0) + (if f == RemovedAuth then 1 else 0)
            == (if o.status == CODE_HAS_PTR then 1 else 0) + (if f == Gained then 1 else 0)
  {
    hide MaskHas, Rejoined;
  }

  /** merged has_ptr = deduplicated baseline has_ptr + gained - removed */
  lemma {:induction false} PtrBalance(mask: uint16, olds: seq<Rec>, news: seq<Rec>)
    ensures CountKey(RecordCode, MergeAll(mask, olds, news), CODE_HAS_PTR) + FateCount(RemovedAuth, mask, olds, news)
         == CountKey(RecStatus, olds, CODE_HAS_PTR) + FateCount(Gained, mask, olds, news)
  {
    hide FateOf, MergedRecord, FirstWith, Code;
    if olds != [] {
      var init, o := olds[..|olds| - 1], olds[|olds| - 1];
      var n := FirstWith(RecIp, news, o.ip);
      PtrBalance(mask, init, news);
      BalanceOne(mask, o, n);
      CountKeySnoc(RecordCode, MergeAll(mask, init, news), MergedRecord(mask, o, n), CODE_HAS_PTR);
    }
  }

  /** Every baseline record has exactly one fate, and the matched ones are all but Outside and Missing. */
  lemma {:induction false} FatesPartition(mask: uint16, olds: seq<Rec>, news: seq<Rec>)
    ensures MatchedCount(mask, olds, news)
         == FateCount(Unchanged, mask, olds, news) + FateCount(Changed, mask, olds, news)
            + FateCount(Gained, mask, olds, news) + FateCount(RemovedAuth, mask, olds, news)
            + FateCount(NewNegative, mask, olds, news) + FateCount(GraceKept, mask, olds, news)
            + FateCount(StillFailing, mask, olds, news)
    ensures |olds| == MatchedCount(mask, olds, news)
                      + FateCount(Outside, mask, olds, news) + FateCount(Missing, mask, olds, news)
  {
    hide MaskHas, Rejoined, FirstWith;
    if olds != [] {
      FatesPartition(mask, olds[..|olds| - 1], news);
    }
  }
}
