/** The merge and compare packages, written separately, report the same movement of the target set. */
module Agreement {
  import opened Model
  import opened Sorting
  import opened Names
  import opened NameLaws
  import opened MergeSpec
  import opened CompareSpec
  import opened Compare
  import opened Reader
  import opened Counting
  import opened Writer
  import Merge
  import MergeFiles
  import CompareRun

  /** has_ptr records of the new pass carry at least one name and no NUL, as the store's callers promise. */
  predicate NamedPtrs(news: seq<Rec>) {
    forall r | r in news && HasPtrCode(r.status) :: r.ptr != [] && forall n | n in r.ptr :: NulFree(n)
  }

  lemma NamedPtrsRejoin(news: seq<Rec>, ip: int)
    requires NamedPtrs(news)
    ensures var n := FirstWith(RecIp, news, ip);
            n.Some? && HasPtrCode(n.value.status) ==> Rejoined(n.value.ptr) == n.value.ptr
  {
    hide FirstWith, Rejoined;
    var n := FirstWith(RecIp, news, ip);
    if n.Some? {
      RejoinedFaithful(n.value.ptr);
    }
  }

  /** One more baseline record adds its target's event, if it is a target at all. */
  lemma TargetsStep(ev: Event, mask: uint16, olds: seq<Rec>, news: seq<Rec>)
    requires olds != []
    ensures var init, o := olds[..|olds| - 1], olds[|olds| - 1];
            EventCount(ev, Targets(mask, olds), news)
            == EventCount(ev, Targets(mask, init), news)
               + One(MaskHas(mask, o.status) && Happens(ev, ToEnt(o), FirstWith(RecIp, news, o.ip)))
  {
    hide EventCount, MaskHas, Happens, FirstWith, ToEnt;
    var init, o := olds[..|olds| - 1], olds[|olds| - 1];
    EventCountSnoc(ev, Targets(mask, init), ToEnt(o), news);
    assert Targets(mask, init) + [] == Targets(mask, init);
    assert ToEnt(o).ip == o.ip by { ToEntIp(o); }
  }

  lemma ToEntIp(o: Rec)
    ensures ToEnt(o).ip == o.ip
  {
  }

  /** Fates and events of one baseline record. */
  lemma FateIsEvent(mask: uint16, o: Rec, n: Option<Rec>)
    requires n.Some? && HasPtrCode(n.value.status) ==> Rejoined(n.value.ptr) == n.value.ptr
    ensures var f := FateOf(mask, o, n);
            var e := ToEnt(o);
            var m := MaskHas(mask, o.status);
            && (f == Gained <==> m && Happens(GainedPtr, e, n))
            && (f == Unchanged <==> m && Happens(SameNames, e, n))
            && (f == Changed <==> m && Happens(NewNames, e, n))
            && (f == RemovedAuth <==> m && (Happens(Cell(0, 1), e, n) || Happens(Cell(0, 2), e, n)))
            && (m && n.Some? <==> m && Happens(Observed, e, n))
  {
    hide MaskHas, HashNames, Rejoined, PackedFlags;
  }

  lemma GraceIsTransient(mask: uint16, o: Rec, n: Option<Rec>)
    requires AssignedStatus(o) && (n.Some? ==> AssignedStatus(n.value))
    ensures var f := FateOf(mask, o, n);
            var e := ToEnt(o);
            var m := MaskHas(mask, o.status);
            && One(f == GraceKept)
               == One(m && Happens(Cell(0, 3), e, n)) + One(m && Happens(Cell(0, 4), e, n))
                  + One(m && Happens(Cell(0, 5), e, n)) + One(m && Happens(Cell(0, 6), e, n))
                  + One(m && Happens(Cell(0, 7), e, n))
  {
    hide MaskHas, HashNames, Rejoined, PackedFlags;
  }

  lemma MissingIsMissing(mask: uint16, o: Rec, n: Option<Rec>)
    requires AssignedStatus(o) && (n.Some? ==> AssignedStatus(n.value))
    ensures var f := FateOf(mask, o, n);
            var e := ToEnt(o);
            var m := MaskHas(mask, o.status);
            && One(f == Missing)
               == One(m && Happens(MissingCell(0), e, n)) + One(m && Happens(MissingCell(1), e, n))
                  + One(m && Happens(MissingCell(2), e, n)) + One(m && Happens(MissingCell(3), e, n))
                  + One(m && Happens(MissingCell(4), e, n)) + One(m && Happens(MissingCell(5), e, n))
                  + One(m && Happens(MissingCell(6), e, n)) + One(m && Happens(MissingCell(7), e, n))
  {
    hide MaskHas, HashNames, Rejoined, PackedFlags;
  }

  lemma {:induction false} NamesAgree(mask: uint16, olds: seq<Rec>, news: seq<Rec>)
    requires NamedPtrs(news)
    ensures FateCount(Gained, mask, olds, news) == EventCount(GainedPtr, Targets(mask, olds), news)
    ensures FateCount(Unchanged, mask, olds, news) == EventCount(SameNames, Targets(mask, olds), news)
    ensures FateCount(Changed, mask, olds, news) == EventCount(NewNames, Targets(mask, olds), news)
    ensures FateCount(RemovedAuth, mask, olds, news)
         == EventCount(Cell(0, 1), Targets(mask, olds), news) + EventCount(Cell(0, 2), Targets(mask, olds), news)
    ensures MatchedCount(mask, olds, news) == EventCount(Observed, Targets(mask, olds), news)
  {
    hide EventCount, FateOf, Happens, FirstWith, MaskHas, Targets, NamedPtrs;
    if olds == [] {
      NoRecords(mask, news);
    } else {
      var init, o := olds[..|olds| - 1], olds[|olds| - 1];
      var n := FirstWith(RecIp, news, o.ip);
      NamesAgree(mask, init, news);
      NamedPtrsRejoin(news, o.ip);
      FateIsEvent(mask, o, n);
      TargetsStep(GainedPtr, mask, olds, news);
      TargetsStep(SameNames, mask, olds, news);
      TargetsStep(NewNames, mask, olds, news);
      TargetsStep(Cell(0, 1), mask, olds, news);
      TargetsStep(Cell(0, 2), mask, olds, news);
      TargetsStep(Observed, mask, olds, news);
      OneCell(ToEnt(o), n);
    }
  }

  lemma OneCell(e: OldEnt, n: Option<Rec>)
    ensures !(Happens(Cell(0, 1), e, n) && Happens(Cell(0, 2), e, n))
  {
  }

  lemma NoRecords(mask: uint16, news: seq<Rec>)
    ensures Targets(mask, []) == [] && forall ev :: EventCount(ev, [], news) == 0
  {
  }

  lemma {:induction false} GraceAgrees(mask: uint16, olds: seq<Rec>, news: seq<Rec>)
    requires (forall r | r in olds :: AssignedStatus(r)) && (forall r | r in news :: AssignedStatus(r))
    ensures FateCount(GraceKept, mask, olds, news)
         == EventCount(Cell(0, 3), Targets(mask, olds), news) + EventCount(Cell(0, 4), Targets(mask, olds), news)
            + EventCount(Cell(0, 5), Targets(mask, olds), news) + EventCount(Cell(0, 6), Targets(mask, olds), news)
            + EventCount(Cell(0, 7), Targets(mask, olds), news)
  {
    hide EventCount, FateOf, Happens, FirstWith, MaskHas, Targets;
    if olds == [] {
      NoRecords(mask, news);
    } else {
      var init, o := olds[..|olds| - 1], olds[|olds| - 1];
      GraceAgrees(mask, init, news);
      GraceIsTransient(mask, o, FirstWith(RecIp, news, o.ip));
      TargetsStep(Cell(0, 3), mask, olds, news);
      TargetsStep(Cell(0, 4), mask, olds, news);
      TargetsStep(Cell(0, 5), mask, olds, news);
      TargetsStep(Cell(0, 6), mask, olds, news);
      TargetsStep(Cell(0, 7), mask, olds, news);
    }
  }

  lemma {:induction false} MissingAgrees(mask: uint16, olds: seq<Rec>, news: seq<Rec>)
    requires (forall r | r in olds :: AssignedStatus(r)) && (forall r | r in news :: AssignedStatus(r))
    ensures FateCount(Missing, mask, olds, news)
         == EventCount(MissingCell(0), Targets(mask, olds), news) + EventCount(MissingCell(1), Targets(mask, olds), news)
            + EventCount(MissingCell(2), Targets(mask, olds), news) + EventCount(MissingCell(3), Targets(mask, olds), news)
            + EventCount(MissingCell(4), Targets(mask, olds), news) + EventCount(MissingCell(5), Targets(mask, olds), news)
            + EventCount(MissingCell(6), Targets(mask, olds), news) + EventCount(MissingCell(7), Targets(mask, olds), news)
  {
    hide EventCount, FateOf, Happens, FirstWith, MaskHas, Targets;
    if olds == [] {
      NoRecords(mask, news);
    } else {
      var init, o := olds[..|olds| - 1], olds[|olds| - 1];
      MissingAgrees(mask, init, news);
      MissingIsMissing(mask, o, FirstWith(RecIp, news, o.ip));
      TargetsStep(MissingCell(0), mask, olds, news);
      TargetsStep(MissingCell(1), mask, olds, news);
      TargetsStep(MissingCell(2), mask, olds, news);
      TargetsStep(MissingCell(3), mask, olds, news);
      TargetsStep(MissingCell(4), mask, olds, news);
      TargetsStep(MissingCell(5), mask, olds, news);
      TargetsStep(MissingCell(6), mask, olds, news);
      TargetsStep(MissingCell(7), mask, olds, news);
    }
  }

  // ----- duplicate-free baselines -----

  /** A target's address is the address of some baseline record. */
  lemma {:induction false} TargetHasRecord(mask: uint16, olds: seq<Rec>, ip: int)
    ensures FirstWith(OldIp, Targets(mask, olds), ip).Some? ==> FirstWith(RecIp, olds, ip).Some?
  {
    hide MaskHas, HashNames, PackedFlags;
    if olds != [] {
      var init, o := olds[..|olds| - 1], olds[|olds| - 1];
      TargetHasRecord(mask, init, ip);
      var ts := Targets(mask, init);
      assert (ts + [ToEnt(o)])[..|ts|] == ts && ts + [] == ts;
    }
  }

  lemma {:induction false} TargetsDistinct(mask: uint16, olds: seq<Rec>)
    requires DistinctKeys(RecIp, olds)
    ensures DistinctKeys(OldIp, Targets(mask, olds))
  {
    hide MaskHas, ToEnt, FirstWith;
    if olds != [] {
      var init, o := olds[..|olds| - 1], olds[|olds| - 1];
      TargetsDistinct(mask, init);
      TargetHasRecord(mask, init, o.ip);
      ToEntIp(o);
      forall i | 0 <= i < |init| ensures RecIp(init[i]) != o.ip {
        assert RecIp(olds[i]) != RecIp(olds[|olds| - 1]);
      }
      var ts := Targets(mask, init);
      forall i | 0 <= i < |ts| ensures OldIp(ts[i]) != o.ip {
      }
    }
  }

  /** What merge counts (through fates) and what compare counts (through events) about the same pair of passes. */
  ghost predicate Agree(mask: uint16, olds: seq<Rec>, news: seq<Rec>, targets: seq<OldEnt>) {
    && FateCount(Gained, mask, olds, news) == EventCount(GainedPtr, targets, news)
    && FateCount(Unchanged, mask, olds, news) == EventCount(SameNames, targets, news)
    && FateCount(Changed, mask, olds, news) == EventCount(NewNames, targets, news)
    && FateCount(RemovedAuth, mask, olds, news)
       == EventCount(Cell(0, 1), targets, news) + EventCount(Cell(0, 2), targets, news)
    && FateCount(GraceKept, mask, olds, news)
       == EventCount(Cell(0, 3), targets, news) + EventCount(Cell(0, 4), targets, news)
          + EventCount(Cell(0, 5), targets, news) + EventCount(Cell(0, 6), targets, news)
          + EventCount(Cell(0, 7), targets, news)
    && FateCount(Missing, mask, olds, news)
       == EventCount(MissingCell(0), targets, news) + EventCount(MissingCell(1), targets, news)
          + EventCount(MissingCell(2), targets, news) + EventCount(MissingCell(3), targets, news)
          + EventCount(MissingCell(4), targets, news) + EventCount(MissingCell(5), targets, news)
          + EventCount(MissingCell(6), targets, news) + EventCount(MissingCell(7), targets, news)
    && MatchedCount(mask, olds, news) == EventCount(Observed, targets, news)
  }

  /**
    Compare and merge agree: on a duplicate-free baseline the number of records of
    each fate is that of the corresponding events, and as many records are matched
    as observed, whatever order compare's unstable sort left its targets in.
    */
  lemma CompareMergeAgree(mask: uint16, olds: seq<Rec>, news: seq<Rec>, targets: seq<OldEnt>)
    requires DistinctKeys(RecIp, olds) && NamedPtrs(news)
    requires (forall r | r in olds :: AssignedStatus(r)) && (forall r | r in news :: AssignedStatus(r))
    requires TargetTable(targets, mask, olds)
    ensures Firsts(olds) == olds
    ensures Agree(mask, olds, news, targets)
  {
    hide EventCount, FateCount, MatchedCount, Targets, FreshTargets, NamedPtrs, FirstWith, Firsts;
    FirstsOfDistinct(olds);
    TargetsDistinct(mask, olds);
    forall ev: Event ensures EventCount(ev, targets, news) == EventCount(ev, Targets(mask, olds), news) {
      EventCountPermutation(ev, targets, Targets(mask, olds), news);
    }
    NamesAgree(mask, olds, news);
    GraceAgrees(mask, olds, news);
    MissingAgrees(mask, olds, news);
  }

  /** The cells of the has_ptr row that mean an authoritative negative. */
  function Negative(t: Totals): nat
    requires t.Valid()
  {
    t.matrix[0][1] + t.matrix[0][2]
  }

  /** The cells of the has_ptr row that mean a transient failure. */
  function Transient(t: Totals): nat
    requires t.Valid()
  {
    t.matrix[0][3] + t.matrix[0][4] + t.matrix[0][5] + t.matrix[0][6] + t.matrix[0][7]
  }

  /** The "missing" column of the matrix. */
  function MissingColumn(t: Totals): nat
    requires t.Valid()
  {
    t.matrix[0][8] + t.matrix[1][8] + t.matrix[2][8] + t.matrix[3][8]
    + t.matrix[4][8] + t.matrix[5][8] + t.matrix[6][8] + t.matrix[7][8]
  }

  /** The new records a package set aside: repeated addresses, and addresses outside the target set. */
  datatype Skipped = Skipped(dups: nat, unexpected: nat) {
    function Sum(): nat { dups + unexpected }
  }

  /** Every counter both packages keep advanced alike. */
  ghost predicate SameMovement(m0: Merge.Counters, m1: Merge.Counters, ms0: Skipped, ms1: Skipped,
                               c0: Totals, c1: Totals, cs0: Skipped, cs1: Skipped) {
    && c0.Valid() && c1.Valid()
    && m1.gained - m0.gained == c1.gained - c0.gained
    && m1.ptrUnchanged - m0.ptrUnchanged == c1.ptrUnchanged - c0.ptrUnchanged
    && m1.ptrChanged - m0.ptrChanged == c1.ptrChanged - c0.ptrChanged
    && m1.removedAuth - m0.removedAuth == Negative(c1) - Negative(c0)
    && m1.graceKept - m0.graceKept == Transient(c1) - Transient(c0)
    && m1.missingKept - m0.missingKept == MissingColumn(c1) - MissingColumn(c0)
    && ms1.Sum() - ms0.Sum() == cs1.Sum() - cs0.Sum()
  }

  /**
    The same about the counters themselves: whatever they were before the shard,
    merging it (m0 to m1, ms0 to ms1) and comparing it (c0 to c1, cs0 to cs1)
    advance them alike, the skipped new records included.
    */
  lemma CountersAgree(mask: uint16, olds: seq<Rec>, news: seq<Rec>, targets: seq<OldEnt>,
                      m0: Merge.Counters, m1: Merge.Counters, ms0: Skipped, ms1: Skipped,
                      c0: Totals, c1: Totals, cs0: Skipped, cs1: Skipped)
    requires DistinctKeys(RecIp, olds) && NamedPtrs(news)
    requires (forall r | r in olds :: AssignedStatus(r)) && (forall r | r in news :: AssignedStatus(r))
    requires TargetTable(targets, mask, olds)
    requires Merge.Accounted(m0, m1, mask, Firsts(olds), news) && Compared(c0, c1, targets, news)
    requires ms1.Sum() == ms0.Sum() + |news| - MatchedCount(mask, Firsts(olds), news)
    requires cs1.Sum() + EventCount(Observed, targets, news) == cs0.Sum() + |news|
    ensures SameMovement(m0, m1, ms0, ms1, c0, c1, cs0, cs1)
  {
    hide EventCount, FateCount, MatchedCount, TargetTable, NamedPtrs, Firsts;
    CompareMergeAgree(mask, olds, news, targets);
    forall f: Fate | Merge.Counted(f) ensures m1.Get(f) == m0.Get(f) + FateCount(f, mask, olds, news) {
    }
    assert m1.Get(Gained) == m1.gained && m1.Get(Unchanged) == m1.ptrUnchanged && m1.Get(Changed) == m1.ptrChanged;
    assert m1.Get(RemovedAuth) == m1.removedAuth && m1.Get(GraceKept) == m1.graceKept;
    assert m1.Get(Missing) == m1.missingKept;
    CellDeltas(c0, c1, targets, news);
  }

  ghost function MergeSkipped(res: Merge.Result): Skipped
    reads res
  {
    Skipped(res.newDups, res.unexpectedNew)
  }

  ghost function CompareSkipped(res: Compare.Result): Skipped
    reads res
  {
    Skipped(res.newDupRecords, res.unexpectedNew)
  }

  /**
    The two tools on the same pair of files: if both accept them, and the baseline
    is duplicate-free with names on every new has_ptr record, they report the same
    movement.
    */
  method MergeAndCompare(codec: Codec, oldFile: seq<byte>, newFile: seq<byte>, mask: uint16, allowPartial: bool,
                         seen: array<nat>, merge: Merge.Result, compare: Compare.Result)
    returns (merged: bool, compared: bool)
    requires seen.Length == Merge.BITMAP_WORDS && |merge.mergedCounts| == NUM_STATUS_CODES && compare.Snap().Valid()
    requires forall r | r in ScanFile(codec, oldFile).recs :: AssignedStatus(r)
    requires forall r | r in ScanFile(codec, newFile).recs :: AssignedStatus(r)
    modifies seen, merge, compare
    ensures merged <==> MergeFiles.Mergeable(codec, oldFile, Some(newFile), allowPartial)
    ensures compared <==> CompareRun.Readable(codec, CompareRun.ShardPair(0, oldFile, Some(newFile)))
    ensures merged && compared
            && DistinctKeys(RecIp, ScanFile(codec, oldFile).recs) && NamedPtrs(ScanFile(codec, newFile).recs) ==>
              SameMovement(old(merge.Snap()), merge.Snap(), old(MergeSkipped(merge)), MergeSkipped(merge),
                           old(compare.Snap()), compare.Snap(), old(CompareSkipped(compare)), CompareSkipped(compare))
  {
    hide ScanFile, AllCountable, MaskedAssigned, Joinable, AssignedStatus, NamedPtrs, SameMovement, MergeFiles.Mergeable,
         CompareRun.Readable, MergeFiles.Loadable, Merge.Accounted, Compared, TargetTable, Closed, Firsts, MergeAll,
         MatchedCount, EventCount, Targets, ParseHeader, Flatten;
    ghost var olds, news := ScanFile(codec, oldFile).recs, ScanFile(codec, newFile).recs;
    AssignedIsCountable(mask, olds, news);
    NoStrays(Targets(mask, olds), news);
    MaskedAreAssigned(mask, olds);
    var err, file;
    ghost var chunks, blocks, j;
    err, file, chunks, blocks := MergeFiles.MergeShard(codec, oldFile, Some(newFile), mask, allowPartial, seen, merge);
    merged := err.None?;
    var truncated;
    compared, truncated, j := CompareRun.ComparePair(codec, CompareRun.ShardPair(0, oldFile, Some(newFile)), mask, compare);
    if merged && compared && DistinctKeys(RecIp, olds) && NamedPtrs(news) {
      CountersAgree(mask, olds, news, j.targets,
                    old(merge.Snap()), merge.Snap(), old(MergeSkipped(merge)), MergeSkipped(merge),
                    old(compare.Snap()), compare.Snap(), old(CompareSkipped(compare)), CompareSkipped(compare));
    }
  }

  lemma MaskedAreAssigned(mask: uint16, recs: seq<Rec>)
    requires forall r | r in recs :: AssignedStatus(r)
    ensures MaskedAssigned(mask, recs)
  {
  }

  lemma CellDeltas(c0: Totals, c1: Totals, targets: seq<OldEnt>, news: seq<Rec>)
    requires Compared(c0, c1, targets, news)
    ensures c1.gained == c0.gained + EventCount(GainedPtr, targets, news)
    ensures c1.ptrUnchanged == c0.ptrUnchanged + EventCount(SameNames, targets, news)
    ensures c1.ptrChanged == c0.ptrChanged + EventCount(NewNames, targets, news)
    ensures forall t | 0 <= t < NUM_STATUS_CODES :: c1.matrix[0][t] == c0.matrix[0][t] + EventCount(Cell(0, t), targets, news)
    ensures forall s | 0 <= s < NUM_STATUS_CODES ::
              c1.matrix[s][8] == c0.matrix[s][8] + EventCount(MissingCell(s), targets, news)
  {
    hide EventCount;
    assert c1.Get(GainedPtr) == c1.gained && c1.Get(SameNames) == c1.ptrUnchanged && c1.Get(NewNames) == c1.ptrChanged;
    forall t | 0 <= t < NUM_STATUS_CODES
      ensures c1.matrix[0][t] == c0.matrix[0][t] + EventCount(Cell(0, t), targets, news)
    {
      assert c1.Get(Cell(0, t)) == c1.matrix[0][t];
    }
    forall s | 0 <= s < NUM_STATUS_CODES
      ensures c1.matrix[s][8] == c0.matrix[s][8] + EventCount(MissingCell(s), targets, news)
    {
      assert c1.Get(MissingCell(s)) == c1.matrix[s][8];
    }
  }

  /**
    Without a name on every has_ptr record the two disagree: a nameless record
    that did not change is unchanged for compare and changed for merge.
    */
  lemma NamelessPtrDisagrees()
    ensures var r := Rec(0x100_0000, CODE_HAS_PTR, [], false, false);
            && FateCount(Unchanged, 1, [r], [r]) == 0
            && EventCount(SameNames, Targets(1, [r]), [r]) == 1
  {
    var r := Rec(0x100_0000, CODE_HAS_PTR, [], false, false);
    assert [r][..0] == [];
    assert MaskHas(1, CODE_HAS_PTR);
    assert FirstWith(RecIp, [r], r.ip) == Some(r);
    RejoinedFaithful([]);
    HashOfNoName();
    assert FateOf(1, r, Some(r)) == Changed;
    assert FateCount(Unchanged, 1, [], [r]) == 0;
    assert Targets(1, [r]) == [ToEnt(r)];
    assert [ToEnt(r)][..0] == [];
    assert Happens(SameNames, ToEnt(r), Some(r));
    assert EventCount(SameNames, [], [r]) == 0;
  }

  /**
    Exactly when merge and compare call the same has_ptr targets unchanged: a new
    has_ptr record without NULs gets the same verdict from both against every
    baseline record if and only if it carries at least one name.
    */
  lemma VerdictsAgreeIff(n: Rec)
    requires HasPtrCode(n.status) && forall x | x in n.ptr :: NulFree(x)
    ensures (forall o: Rec | HasPtrCode(o.status) ::
               PtrFate(o, Rejoined(n.ptr)) == Unchanged <==> HappensWith(SameNames, ToEnt(o), n))
       <==> n.ptr != []
  {
    hide HashNames, Rejoined, PackedFlags;
    RejoinedFaithful(n.ptr);
    if n.ptr == [] {
      var o := Rec(n.ip, CODE_HAS_PTR, [], false, false);
      HashOfNoName();
      assert HappensWith(SameNames, ToEnt(o), n);
      assert PtrFate(o, Rejoined(n.ptr)) != Unchanged;
    }
  }

  /**
    A has_ptr address whose names only changed in order, letter case or a trailing
    dot is unchanged for both packages.
    */
  lemma RespellingIsUnchanged(mask: uint16, o: Rec, n: Rec)
    requires MaskHas(mask, o.status) && HasPtrCode(o.status) && HasPtrCode(n.status)
    requires SameList(o.ptr, n.ptr) && n.ptr != [] && forall x | x in n.ptr :: NulFree(x)
    ensures FateOf(mask, o, Some(n)) == Unchanged && Happens(SameNames, ToEnt(o), Some(n))
  {
    hide MaskHas, HashNames, Rejoined, PackedFlags, SameList, NulFree;
    RejoinedFaithful(n.ptr);
    RespelledHashesAlike(o.ptr, n.ptr);
  }

  lemma HashOfNoName()
    ensures HashNames([[]]) != HashNames([])
  {
    assert NormalAll([[]]) == [[]];
    assert SortNames([[]]) == [[]];
    assert Serial([[]]) == [NUL];
    assert Fnv(OFFSET64, [NUL]) == FnvStep(OFFSET64, NUL);
  }
}
