/**
  The whole comparison (`Run` and the integer part of `finalize` in
  internal/compare/compare.go): the accumulators go through one shard pair after
  the other, and the laws the report relies on hold of the totals.
  */
module CompareRun {
  import opened Model
  import opened Reader
  import opened CompareSpec
  import opened CompareRecords
  import opened Compare

  // ----- rows of the matrix -----

  /** `rowSum` */
  function RowSum(row: seq<nat>): nat {
    if row == [] then 0 else RowSum(row[..|row| - 1]) + row[|row| - 1]
  }

  method SumRow(row: seq<nat>) returns (s: nat)
    ensures s == RowSum(row)
  {
    s := 0;
    var i := 0;
    while i < |row|
      invariant 0 <= i <= |row| && s == RowSum(row[..i])
    {
      assert row[..i + 1][..i] == row[..i];
      s := s + row[i];
      i := i + 1;
    }
    assert row[..|row|] == row;
  }

  lemma RowSumOfNine(row: seq<nat>)
    requires |row| == 9
    ensures RowSum(row) == row[0] + row[1] + row[2] + row[3] + row[4] + row[5] + row[6] + row[7] + row[8]
  {
    RowSumStep(row, 0); RowSumStep(row, 1); RowSumStep(row, 2);
    RowSumStep(row, 3); RowSumStep(row, 4); RowSumStep(row, 5);
    RowSumStep(row, 6); RowSumStep(row, 7); RowSumStep(row, 8);
    assert row[..9] == row && row[..0] == [];
  }

  lemma RowSumStep(row: seq<nat>, i: nat)
    requires i < |row|
    ensures RowSum(row[..i + 1]) == RowSum(row[..i]) + row[i]
  {
    assert row[..i + 1][..i] == row[..i];
  }

  /** The targets of old status s that the report calls crawled: the row without the missing column. */
  function Crawled(t: Totals, s: int): int
    requires t.Valid() && 0 <= s < NUM_STATUS_CODES
  {
    RowSum(t.matrix[s]) - t.matrix[s][MISSING_COL]
  }

  function AllCrawled(t: Totals): int
    requires t.Valid()
  {
    Crawled(t, 0) + Crawled(t, 1) + Crawled(t, 2) + Crawled(t, 3)
    + Crawled(t, 4) + Crawled(t, 5) + Crawled(t, 6) + Crawled(t, 7)
  }

  function AllTargets(t: Totals): nat
    requires t.Valid()
  {
    t.targets[0] + t.targets[1] + t.targets[2] + t.targets[3]
    + t.targets[4] + t.targets[5] + t.targets[6] + t.targets[7]
  }

  // ----- laws kept by every shard pair, whatever came before it -----

  /** How one row advances. */
  lemma RowAdvances(c0: Totals, c1: Totals, targets: seq<OldEnt>, news: seq<Rec>, s: int)
    requires Compared(c0, c1, targets, news) && Joinable(targets, news) && 0 <= s < NUM_STATUS_CODES
    ensures RowSum(c1.matrix[s]) == RowSum(c0.matrix[s]) + EventCount(TargetOf(s), targets, news)
    ensures c1.matrix[s][MISSING_COL] == c0.matrix[s][MISSING_COL] + EventCount(MissingCell(s), targets, news)
    ensures c1.targets[s] == c0.targets[s] + EventCount(TargetOf(s), targets, news)
  {
    hide EventCount, RowSum, Joinable;
    var a, b := c0.matrix[s], c1.matrix[s];
    forall t | 0 <= t < NUM_STATUS_CODES ensures b[t] == a[t] + EventCount(Cell(s, t), targets, news) {
      assert c1.Get(Cell(s, t)) == b[t];
    }
    assert c1.Get(MissingCell(s)) == b[MISSING_COL];
    assert c1.Get(TargetOf(s)) == c1.targets[s];
    RowConserved(s, targets, news);
    RowSumOfNine(a);
    RowSumOfNine(b);
  }

  /** Every old-status row, "missing" included, sums to its target count. */
  lemma RowIsTargets(c0: Totals, c1: Totals, targets: seq<OldEnt>, news: seq<Rec>, s: int)
    requires Compared(c0, c1, targets, news) && Joinable(targets, news) && 0 <= s < NUM_STATUS_CODES
    requires RowSum(c0.matrix[s]) == c0.targets[s]
    ensures RowSum(c1.matrix[s]) == c1.targets[s]
  {
    hide EventCount, RowSum, Joinable, Compared;
    RowAdvances(c0, c1, targets, news, s);
  }

  /** The target counts advance by the number of targets. */
  lemma TargetsAdvance(c0: Totals, c1: Totals, targets: seq<OldEnt>, news: seq<Rec>)
    requires Compared(c0, c1, targets, news) && FreshTargets(targets)
    ensures AllTargets(c1) == AllTargets(c0) + |targets|
  {
    hide EventCount;
    TargetsConserved(targets, news);
    forall s | 0 <= s < NUM_STATUS_CODES
      ensures c1.targets[s] == c0.targets[s] + EventCount(TargetOf(s), targets, news)
    {
      assert c1.Get(TargetOf(s)) == c1.targets[s];
    }
  }

  /** The non-missing cells advance by the targets that met a new record (one with a column of its own). */
  lemma CellsAreObserved(c0: Totals, c1: Totals, targets: seq<OldEnt>, news: seq<Rec>)
    requires Compared(c0, c1, targets, news) && Joinable(targets, news) && FreshTargets(targets)
    ensures AllCrawled(c1) + EventCount(Stray, targets, news) == AllCrawled(c0) + EventCount(Observed, targets, news)
  {
    hide EventCount, RowSum, Joinable, Compared;
    ComparedValid(c0, c1, targets, news);
    TargetsConserved(targets, news);
    ObservedOrMissing(targets, news);
    forall s | 0 <= s < NUM_STATUS_CODES
      ensures Crawled(c1, s)
           == Crawled(c0, s) + EventCount(TargetOf(s), targets, news) - EventCount(MissingCell(s), targets, news)
    {
      RowAdvances(c0, c1, targets, news, s);
    }
  }

  /** unchanged, changed, removed and transient exactly partition the crawled has_ptr set. */
  predicate PtrPartition(t: Totals) {
    && t.Valid()
    && var row := t.matrix[CODE_HAS_PTR];
       && Crawled(t, CODE_HAS_PTR)
          == t.ptrUnchanged + t.ptrChanged
             + (row[CODE_NXDOMAIN] + row[CODE_NOERROR_EMPTY])
             + (row[3] + row[4] + row[5] + row[6] + row[7])
       && t.matchBoth + t.matchOldOnly + t.matchNewOnly + t.matchNeither == t.bothChecked
  }

  lemma CrawledPtrPartition(c0: Totals, c1: Totals, targets: seq<OldEnt>, news: seq<Rec>)
    requires Compared(c0, c1, targets, news) && PtrPartition(c0)
    ensures PtrPartition(c1)
  {
    hide EventCount, RowSum;
    RowSumOfNine(c0.matrix[CODE_HAS_PTR]);
    RowSumOfNine(c1.matrix[CODE_HAS_PTR]);
    PtrCellsConserved(targets, news);
    assert c1.matrix[0][0] == c1.Get(Cell(0, 0));
    assert c1.ptrUnchanged == c1.Get(SameNames) && c1.ptrChanged == c1.Get(NewNames);
    assert c1.matchBoth == c1.Get(FcCell(true, true)) && c1.matchOldOnly == c1.Get(FcCell(true, false));
    assert c1.matchNewOnly == c1.Get(FcCell(false, true)) && c1.matchNeither == c1.Get(FcCell(false, false));
    assert c1.bothChecked == c1.Get(BothChecked);
  }

  /** The gained PTRs are the has_ptr column outside the has_ptr row; the confirmed ones are among the checked ones. */
  predicate GainedColumn(t: Totals) {
    && t.Valid()
    && t.gained == t.matrix[1][0] + t.matrix[2][0] + t.matrix[3][0] + t.matrix[4][0]
                   + t.matrix[5][0] + t.matrix[6][0] + t.matrix[7][0]
    && t.gainedMatch <= t.gainedChecked <= t.gained
  }

  lemma GainedIsColumn(c0: Totals, c1: Totals, targets: seq<OldEnt>, news: seq<Rec>)
    requires Compared(c0, c1, targets, news) && FreshTargets(targets) && GainedColumn(c0)
    ensures GainedColumn(c1)
  {
    hide EventCount;
    GainedConserved(targets, news);
    forall s | 0 <= s < NUM_STATUS_CODES
      ensures c1.matrix[s][0] == c0.matrix[s][0] + EventCount(Cell(s, 0), targets, news)
    {
      assert c1.Get(Cell(s, 0)) == c1.matrix[s][0];
    }
    assert c1.gained == c1.Get(GainedPtr) && c1.gainedChecked == c1.Get(GainedChecked);
    assert c1.gainedMatch == c1.Get(GainedMatch);
  }

  // ----- any number of shard pairs -----

  /** One compared shard pair: the records of both files, the targets the join used and the records behind them. */
  datatype Joint = Joint(olds: seq<Rec>, news: seq<Rec>, targets: seq<OldEnt>, chosen: seq<Rec>)

  function EventTotal(ev: Event, joints: seq<Joint>): nat {
    if joints == [] then 0
    else
      var last := joints[|joints| - 1];
      EventTotal(ev, joints[..|joints| - 1]) + EventCount(ev, last.targets, last.news)
  }

  /** How many records of the old files the mask selects. */
  function MaskedRecords(mask: uint16, joints: seq<Joint>): nat {
    if joints == [] then 0
    else MaskedRecords(mask, joints[..|joints| - 1]) + |Targets(mask, joints[|joints| - 1].olds)|
  }

  function NewRecords(joints: seq<Joint>): nat {
    if joints == [] then 0 else NewRecords(joints[..|joints| - 1]) + |joints[|joints| - 1].news|
  }

  /** The totals and the bookkeeping counters. */
  datatype Ledger = Ledger(totals: Totals, oldDups: nat, newDups: nat, unexpected: nat)

  ghost function LedgerOf(res: Result): Ledger
    reads res
  {
    Ledger(res.Snap(), res.oldDupTargets, res.newDupRecords, res.unexpectedNew)
  }

  /** Everything read is accounted for, and the statistics fit together. */
  ghost predicate Balanced(l: Ledger, mask: uint16, joints: seq<Joint>) {
    var t := l.totals;
    && t.Valid()
    // every row of the matrix sums to its target count
    && (forall s | 0 <= s < NUM_STATUS_CODES :: RowSum(t.matrix[s]) == t.targets[s])
    // masked old records = targets + duplicates
    && AllTargets(t) + l.oldDups == MaskedRecords(mask, joints)
    // new records = unexpected + duplicates + non-missing cells + strays
    && l.unexpected + l.newDups + AllCrawled(t) + EventTotal(Stray, joints) == NewRecords(joints)
    && PtrPartition(t)
    && GainedColumn(t)
  }

  /** Every statistic counts the targets its event happened to, over all pairs. */
  ghost predicate Counts(t: Totals, joints: seq<Joint>) {
    t.Valid() && forall ev | Reported(ev) :: t.Get(ev) == EventTotal(ev, joints)
  }

  lemma TotalsStep(ev: Event, mask: uint16, joints: seq<Joint>, j: Joint)
    ensures EventTotal(ev, joints + [j]) == EventTotal(ev, joints) + EventCount(ev, j.targets, j.news)
    ensures MaskedRecords(mask, joints + [j]) == MaskedRecords(mask, joints) + |Targets(mask, j.olds)|
    ensures NewRecords(joints + [j]) == NewRecords(joints) + |j.news|
  {
    hide EventCount, Targets;
    assert (joints + [j])[..|joints|] == joints;
  }

  /** One more pair, as `CompareShard` leaves the ledger. */
  ghost predicate Posted(l0: Ledger, l1: Ledger, mask: uint16, j: Joint) {
    && TargetTable(j.targets, mask, j.olds) && Joinable(j.targets, j.news)
    && j.targets == Ents(j.chosen) && Chosen(j.chosen, mask, j.olds)
    && Compared(l0.totals, l1.totals, j.targets, j.news)
    && |j.targets| + l1.oldDups == l0.oldDups + |Targets(mask, j.olds)|
    && l1.newDups + l1.unexpected + EventCount(Observed, j.targets, j.news) == l0.newDups + l0.unexpected + |j.news|
  }

  /** The books stay balanced from one shard pair to the next. */
  lemma BalanceKept(l0: Ledger, l1: Ledger, mask: uint16, joints: seq<Joint>, j: Joint)
    requires Balanced(l0, mask, joints) && Posted(l0, l1, mask, j)
    ensures Balanced(l1, mask, joints + [j])
  {
    hide EventCount, Targets, RowSum, Joinable, Compared, EventTotal, MaskedRecords, NewRecords, FreshTargets,
         PtrPartition, GainedColumn, AllTargets, AllCrawled;
    var c0, c1 := l0.totals, l1.totals;
    assert c1.Valid() by { ComparedValid(c0, c1, j.targets, j.news); }
    TotalsStep(Stray, mask, joints, j);
    forall s | 0 <= s < NUM_STATUS_CODES ensures RowSum(c1.matrix[s]) == c1.targets[s] {
      RowIsTargets(c0, c1, j.targets, j.news, s);
    }
    TargetsAdvance(c0, c1, j.targets, j.news);
    CellsAreObserved(c0, c1, j.targets, j.news);
    CrawledPtrPartition(c0, c1, j.targets, j.news);
    GainedIsColumn(c0, c1, j.targets, j.news);
  }

  lemma ComparedValid(c0: Totals, c1: Totals, targets: seq<OldEnt>, news: seq<Rec>)
    requires Compared(c0, c1, targets, news)
    ensures c0.Valid() && c1.Valid()
  {
  }

  lemma CountsKept(l0: Ledger, l1: Ledger, mask: uint16, joints: seq<Joint>, j: Joint)
    requires Counts(l0.totals, joints) && Posted(l0, l1, mask, j)
    ensures Counts(l1.totals, joints + [j])
  {
    hide EventCount, Targets, TargetTable, Joinable, EventTotal, Totals.Get;
    forall ev | Reported(ev) ensures l1.totals.Get(ev) == EventTotal(ev, joints + [j]) {
      TotalsStep(ev, mask, joints, j);
    }
  }

  /** Fresh accumulators balance. */
  lemma EmptyBalance(l: Ledger, mask: uint16)
    requires l.totals.Valid() && forall ev | InRange(ev) :: l.totals.Get(ev) == 0
    requires l.oldDups == l.newDups == l.unexpected == 0
    ensures Balanced(l, mask, []) && Counts(l.totals, [])
  {
    hide RowSum;
    var t := l.totals;
    forall s | 0 <= s < NUM_STATUS_CODES
      ensures t.targets[s] == 0 && RowSum(t.matrix[s]) == 0 && forall k | 0 <= k <= MISSING_COL :: t.matrix[s][k] == 0
    {
      assert t.Get(TargetOf(s)) == 0;
      forall k | 0 <= k <= MISSING_COL ensures t.matrix[s][k] == 0 {
        assert t.Get(Cell(s, k)) == 0;
      }
      RowSumOfNine(t.matrix[s]);
    }
    assert t.Get(SameNames) == t.Get(NewNames) == t.Get(BothChecked) == t.Get(GainedPtr) == 0;
    assert t.Get(GainedChecked) == t.Get(GainedMatch) == 0;
    assert t.Get(FcCell(true, true)) == t.Get(FcCell(true, false)) == 0;
    assert t.Get(FcCell(false, true)) == t.Get(FcCell(false, false)) == 0;
  }

  // ----- Run -----

  /** An old shard and the new file of the same shard, if there is one yet. */
  datatype ShardPair = ShardPair(id: nat, oldFile: seq<byte>, newFile: Option<seq<byte>>)

  /** The old file must be complete; the new one may end in a truncated tail. */
  predicate Readable(codec: Codec, p: ShardPair)
    requires p.newFile.Some?
  {
    && ScanFile(codec, p.oldFile).end == Complete
    && ScanFile(codec, p.newFile.value).end in {Complete, TruncatedTail}
  }

  /**
    A file cut at any byte behind its header: as the new side of a pair it is
    compared with what its whole blocks hold; as the old side it is accepted exactly
    if the cut falls between two blocks.
    */
  lemma CutFiles(codec: Codec, head: seq<byte>, blocks: seq<seq<Record>>, k: nat, other: seq<byte>, id: nat)
    requires codec.Valid() && (forall b | b in blocks :: Fits(codec, b)) && ScanFile(codec, other).end == Complete
    requires |head| == HEADER_SIZE && HEADER_SIZE <= k <= HEADER_SIZE + |Frames(codec, blocks)|
    ensures var cut := (head + Frames(codec, blocks))[..k];
            var n := WholeBlocks(codec, blocks, k - HEADER_SIZE);
            && Readable(codec, ShardPair(id, other, Some(cut))) && ScanFile(codec, cut).recs == Delivered(blocks[..n])
            && (Readable(codec, ShardPair(id, cut, Some(other))) <==> k == HEADER_SIZE + |Frames(codec, blocks[..n])|)
  {
    hide ScanFile, Frames, Delivered, Fits, WholeBlocks;
    TruncationRobust(codec, head, blocks, k);
  }

  /** The status codes of the pair have their place in the matrix. */
  ghost predicate Indexable(codec: Codec, mask: uint16, p: ShardPair)
    requires p.newFile.Some?
  {
    var olds, news := ScanFile(codec, p.oldFile).recs, ScanFile(codec, p.newFile.value).recs;
    MaskedAssigned(mask, olds) && Joinable(Targets(mask, olds), news)
  }

  function Ids(pairs: seq<ShardPair>): seq<nat> {
    if pairs == [] then [] else Ids(pairs[..|pairs| - 1]) + [pairs[|pairs| - 1].id]
  }

  /** The pairs with, and without, a new file. */
  function Present(pairs: seq<ShardPair>): (r: seq<ShardPair>)
    ensures forall p | p in r :: p in pairs && p.newFile.Some?
  {
    if pairs == [] then []
    else
      var p := pairs[|pairs| - 1];
      Present(pairs[..|pairs| - 1]) + (if p.newFile.Some? then [p] else [])
  }

  function Absent(pairs: seq<ShardPair>): seq<ShardPair> {
    if pairs == [] then []
    else
      var p := pairs[|pairs| - 1];
      Absent(pairs[..|pairs| - 1]) + (if p.newFile.None? then [p] else [])
  }

  /** The pairs whose new file was collected in the middle of the crawl. */
  function Cut(codec: Codec, pairs: seq<ShardPair>): seq<ShardPair> {
    if pairs == [] then []
    else
      var p := pairs[|pairs| - 1];
      var cut := p.newFile.Some? && ScanFile(codec, p.newFile.value).end == TruncatedTail;
      Cut(codec, pairs[..|pairs| - 1]) + (if cut then [p] else [])
  }

  /** The joints are those of exactly these pairs, in order. */
  ghost predicate JointsOf(codec: Codec, mask: uint16, joints: seq<Joint>, pairs: seq<ShardPair>) {
    && |joints| == |pairs|
    && forall k | 0 <= k < |pairs| ::
         && pairs[k].newFile.Some?
         && joints[k].olds == ScanFile(codec, pairs[k].oldFile).recs
         && joints[k].news == ScanFile(codec, pairs[k].newFile.value).recs
         && joints[k].targets == Ents(joints[k].chosen) && Chosen(joints[k].chosen, mask, joints[k].olds)
  }

  lemma IdsSnoc(pairs: seq<ShardPair>, p: ShardPair)
    ensures Ids(pairs + [p]) == Ids(pairs) + [p.id]
  {
    assert (pairs + [p])[..|pairs|] == pairs;
  }

  lemma FilterStep(codec: Codec, pairs: seq<ShardPair>, i: nat)
    requires i < |pairs|
    ensures var p := pairs[i];
            && Present(pairs[..i + 1]) == (if p.newFile.Some? then Present(pairs[..i]) + [p] else Present(pairs[..i]))
            && Absent(pairs[..i + 1]) == (if p.newFile.None? then Absent(pairs[..i]) + [p] else Absent(pairs[..i]))
            && Cut(codec, pairs[..i + 1])
               == if p.newFile.Some? && ScanFile(codec, p.newFile.value).end == TruncatedTail then Cut(codec, pairs[..i]) + [p]
                  else Cut(codec, pairs[..i])
  {
    hide ScanFile;
    assert pairs[..i + 1][..i] == pairs[..i];
  }

  lemma JointsSnoc(codec: Codec, mask: uint16, joints: seq<Joint>, pairs: seq<ShardPair>, j: Joint, p: ShardPair)
    requires JointsOf(codec, mask, joints, pairs) && p.newFile.Some?
    requires j.olds == ScanFile(codec, p.oldFile).recs && j.news == ScanFile(codec, p.newFile.value).recs
    requires j.targets == Ents(j.chosen) && Chosen(j.chosen, mask, j.olds)
    ensures JointsOf(codec, mask, joints + [j], pairs + [p])
  {
    hide ScanFile, Chosen, Ents;
  }

  lemma PairJoinable(mask: uint16, j: Joint)
    requires TargetTable(j.targets, mask, j.olds) && Joinable(Targets(mask, j.olds), j.news)
    ensures Joinable(j.targets, j.news)
  {
  }

  /** The body of the loop for a pair with a new file: scan both, then compare. */
  method ComparePair(codec: Codec, p: ShardPair, mask: uint16, res: Result)
    returns (ok: bool, truncated: bool, ghost j: Joint)
    requires p.newFile.Some? && res.Snap().Valid()
    requires Readable(codec, p) ==> Indexable(codec, mask, p)
    modifies res
    ensures ok <==> Readable(codec, p)
    ensures ok ==> truncated == (ScanFile(codec, p.newFile.value).end == TruncatedTail)
    ensures ok ==> j.olds == ScanFile(codec, p.oldFile).recs && j.news == ScanFile(codec, p.newFile.value).recs
    ensures ok ==> Posted(old(LedgerOf(res)), LedgerOf(res), mask, j)
  {
    hide ScanFile, MaskedAssigned, Joinable, Targets, EventCount, Compared, TargetTable, Chosen, Ents, RecordCount;
    j, truncated := Joint([], [], [], []), false;
    var olds, oldEnd := Scan(codec, p.oldFile);
    if oldEnd != Complete {
      return false, truncated, j;
    }
    var news, newEnd := Scan(codec, p.newFile.value);
    if newEnd != Complete && newEnd != TruncatedTail {
      return false, truncated, j;
    }
    ghost var targets, chosen;
    targets, chosen := CompareShard(olds, news, mask, res);
    j := Joint(olds, news, targets, chosen);
    PairJoinable(mask, j);
    return true, newEnd == TruncatedTail, j;
  }

  /**
    `Run` on the shards found: shards without a new file are set aside, an
    unreadable file fails the whole run, and otherwise the report is balanced and
    counts what happened in all compared pairs.
    */
  method Run(codec: Codec, pairs: seq<ShardPair>, mask: uint16)
    returns (ok: bool, res: Result, compared: seq<nat>, missing: seq<nat>, truncated: seq<nat>, ghost joints: seq<Joint>)
    requires forall p | p in pairs && p.newFile.Some? && Readable(codec, p) :: Indexable(codec, mask, p)
    ensures ok <==> forall p | p in pairs && p.newFile.Some? :: Readable(codec, p)
    ensures ok ==> JointsOf(codec, mask, joints, Present(pairs))
    ensures ok ==> compared == Ids(Present(pairs)) && missing == Ids(Absent(pairs)) && truncated == Ids(Cut(codec, pairs))
    ensures ok ==> Counts(res.Snap(), joints) && Balanced(LedgerOf(res), mask, joints)
    ensures ok ==> Reports(res, joints)
  {
    hide Reports, Readable, Indexable, Balanced, Counts, Posted, JointsOf, Present, Absent, Cut, Ids, Totals.Get, Totals.Valid;
    res := new Result();
    compared, missing, truncated, joints := [], [], [], [];
    var i := 0;
    RunStarts(codec, mask, LedgerOf(res), pairs);
    while i < |pairs|
      invariant 0 <= i <= |pairs| && res.Snap().Valid()
      invariant forall k | 0 <= k < i && pairs[k].newFile.Some? :: Readable(codec, pairs[k])
      invariant JointsOf(codec, mask, joints, Present(pairs[..i]))
      invariant compared == Ids(Present(pairs[..i])) && missing == Ids(Absent(pairs[..i]))
      invariant truncated == Ids(Cut(codec, pairs[..i]))
      invariant Counts(res.Snap(), joints) && Balanced(LedgerOf(res), mask, joints)
    {
      var p := pairs[i];
      FilterStep(codec, pairs, i);
      if p.newFile.None? {
        IdsSnoc(Absent(pairs[..i]), p);
        missing := missing + [p.id];
      } else {
        ghost var l0 := LedgerOf(res);
        var read, cut;
        ghost var j;
        read, cut, j := ComparePair(codec, p, mask, res);
        if !read {
          ok := false;
          return;
        }
        IdsSnoc(Present(pairs[..i]), p);
        compared := compared + [p.id];
        if cut {
          IdsSnoc(Cut(codec, pairs[..i]), p);
          truncated := truncated + [p.id];
        }
        RunStep(codec, mask, l0, LedgerOf(res), joints, Present(pairs[..i]), j, p);
        joints := joints + [j];
      }
      i := i + 1;
    }
    assert pairs[..|pairs|] == pairs;
    ReportsOnRecords(codec, mask, res, joints, Present(pairs));
    ok := true;
  }

  /** How many old records of all compared pairs an event befell. */
  function RecordTotal(ev: Event, joints: seq<Joint>): nat {
    if joints == [] then 0
    else
      var last := joints[|joints| - 1];
      RecordTotal(ev, joints[..|joints| - 1]) + RecordCount(ev, last.chosen, last.news)
  }

  /** The report, field by field. */
  ghost predicate Reports(res: Result, joints: seq<Joint>)
    reads res
  {
    && res.Snap().Valid()
    && (forall s, t | 0 <= s < NUM_STATUS_CODES && 0 <= t < NUM_STATUS_CODES ::
          res.matrix[s][t] == RecordTotal(Cell(s, t), joints))
    && (forall s | 0 <= s < NUM_STATUS_CODES ::
          && res.matrix[s][MISSING_COL] == RecordTotal(MissingCell(s), joints)
          && res.targets[s] == RecordTotal(TargetOf(s), joints))
    && res.ptrUnchanged == RecordTotal(SameNames, joints)
    && res.ptrChanged == RecordTotal(NewNames, joints)
    && res.fcBothChecked == RecordTotal(BothChecked, joints)
    && res.fcMatchBoth == RecordTotal(FcCell(true, true), joints)
    && res.fcMatchOldOnly == RecordTotal(FcCell(true, false), joints)
    && res.fcMatchNewOnly == RecordTotal(FcCell(false, true), joints)
    && res.fcMatchNeither == RecordTotal(FcCell(false, false), joints)
    && res.gainedTotal == RecordTotal(GainedPtr, joints)
    && res.gainedChecked == RecordTotal(GainedChecked, joints)
    && res.gainedMatch == RecordTotal(GainedMatch, joints)
  }

  lemma {:induction false} TotalsOnRecords(ev: Event, joints: seq<Joint>)
    requires forall j | j in joints :: j.targets == Ents(j.chosen)
    ensures EventTotal(ev, joints) == RecordTotal(ev, joints)
  {
    hide EventCount, RecordCount, Ents;
    if joints != [] {
      TotalsOnRecords(ev, joints[..|joints| - 1]);
      var last := joints[|joints| - 1];
      CountsOnRecords(ev, last.chosen, last.news);
    }
  }

  lemma ReportsOnRecords(codec: Codec, mask: uint16, res: Result, joints: seq<Joint>, pairs: seq<ShardPair>)
    requires JointsOf(codec, mask, joints, pairs) && Counts(res.Snap(), joints)
    ensures Reports(res, joints)
  {
    hide EventTotal, RecordTotal, ScanFile, Ents, Chosen;
    forall ev | Reported(ev) ensures res.Snap().Get(ev) == RecordTotal(ev, joints) {
      TotalsOnRecords(ev, joints);
    }
    var t := res.Snap();
    forall s, u | 0 <= s < NUM_STATUS_CODES && 0 <= u < NUM_STATUS_CODES
      ensures t.matrix[s][u] == RecordTotal(Cell(s, u), joints)
    {
      assert t.Get(Cell(s, u)) == t.matrix[s][u];
    }
    forall s | 0 <= s < NUM_STATUS_CODES
      ensures t.matrix[s][MISSING_COL] == RecordTotal(MissingCell(s), joints)
      ensures t.targets[s] == RecordTotal(TargetOf(s), joints)
    {
      assert t.Get(MissingCell(s)) == t.matrix[s][MISSING_COL] && t.Get(TargetOf(s)) == t.targets[s];
    }
    assert t.Get(SameNames) == t.ptrUnchanged;
    assert t.Get(NewNames) == t.ptrChanged;
    assert t.Get(BothChecked) == t.bothChecked;
    assert t.Get(FcCell(true, true)) == t.matchBoth;
    assert t.Get(FcCell(true, false)) == t.matchOldOnly;
    assert t.Get(FcCell(false, true)) == t.matchNewOnly;
    assert t.Get(FcCell(false, false)) == t.matchNeither;
    assert t.Get(GainedPtr) == t.gained;
    assert t.Get(GainedChecked) == t.gainedChecked;
    assert t.Get(GainedMatch) == t.gainedMatch;
  }

  lemma RunStarts(codec: Codec, mask: uint16, l: Ledger, pairs: seq<ShardPair>)
    requires l.totals.Valid() && forall ev | InRange(ev) :: l.totals.Get(ev) == 0
    requires l.oldDups == l.newDups == l.unexpected == 0
    ensures Present(pairs[..0]) == Absent(pairs[..0]) == Cut(codec, pairs[..0]) == [] && Ids([]) == []
    ensures JointsOf(codec, mask, [], []) && Counts(l.totals, []) && Balanced(l, mask, [])
  {
    hide Counts, Balanced, Totals.Get, Totals.Valid;
    EmptyBalance(l, mask);
  }

  lemma RunStep(codec: Codec, mask: uint16, l0: Ledger, l1: Ledger, joints: seq<Joint>, pairs: seq<ShardPair>, j: Joint,
                p: ShardPair)
    requires Balanced(l0, mask, joints) && Counts(l0.totals, joints) && Posted(l0, l1, mask, j)
    requires JointsOf(codec, mask, joints, pairs) && p.newFile.Some?
    requires j.olds == ScanFile(codec, p.oldFile).recs && j.news == ScanFile(codec, p.newFile.value).recs
    ensures Balanced(l1, mask, joints + [j]) && Counts(l1.totals, joints + [j]) && l1.totals.Valid()
    ensures JointsOf(codec, mask, joints + [j], pairs + [p])
  {
    hide ScanFile, Balanced, Counts, JointsOf, TargetTable, Compared, Joinable, Targets, EventCount, Totals.Valid, Chosen,
         Ents;
    BalanceKept(l0, l1, mask, joints, j);
    CountsKept(l0, l1, mask, joints, j);
    JointsSnoc(codec, mask, joints, pairs, j, p);
    ComparedValid(l0.totals, l1.totals, j.targets, j.news);
  }
}
