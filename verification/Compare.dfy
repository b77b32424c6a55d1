/**
  The comparison of one shard pair (`Run`, `loadOldTargets`, `dedupSorted`,
  `joinNewPass` and the integer part of `finalize` in internal/compare/compare.go).
  */
module Compare {
  import opened Model
  import opened Bits
  import opened Sorting
  import opened Names
  import opened MergeSpec
  import opened CompareSpec
  import opened CompareRecords

  type Matrix = seq<seq<nat>>

  predicate Shaped(m: Matrix) {
    |m| == NUM_STATUS_CODES && forall s | 0 <= s < NUM_STATUS_CODES :: |m[s]| == NUM_STATUS_CODES + 1
  }

  /** `matrix[s][t]++` */
  function BumpCell(m: Matrix, s: int, t: int): (r: Matrix)
    requires Shaped(m) && 0 <= s < NUM_STATUS_CODES && 0 <= t <= MISSING_COL
    ensures Shaped(r)
  {
    m[s := m[s][t := m[s][t] + 1]]
  }

  // ----- the accumulators -----

  /** The statistics at one moment. */
  datatype Totals = Totals(matrix: Matrix, targets: seq<nat>, ptrUnchanged: nat, ptrChanged: nat,
                           bothChecked: nat, matchBoth: nat, matchOldOnly: nat, matchNewOnly: nat, matchNeither: nat,
                           gained: nat, gainedChecked: nat, gainedMatch: nat)
  {
    predicate Valid() {
      Shaped(matrix) && |targets| == NUM_STATUS_CODES
    }

    /** The statistic that counts an event. */
    function Get(ev: Event): nat
      requires Valid() && InRange(ev)
    {
      match ev
      case Cell(s, t) => matrix[s][t]
      case MissingCell(s) => matrix[s][MISSING_COL]
      case TargetOf(s) => targets[s]
      case SameNames => ptrUnchanged
      case NewNames => ptrChanged
      case BothChecked => bothChecked
      case FcCell(was, now) =>
        if was then (if now then matchBoth else matchOldOnly) else (if now then matchNewOnly else matchNeither)
      case GainedPtr => gained
      case GainedChecked => gainedChecked
      case GainedMatch => gainedMatch
    }
  }

  /** Events that have a statistic of their own. */
  predicate InRange(ev: Event) {
    match ev
    case Cell(s, t) => 0 <= s < NUM_STATUS_CODES && 0 <= t <= MISSING_COL
    case Unseen(_) => false
    case MissingCell(s) => 0 <= s < NUM_STATUS_CODES
    case TargetOf(s) => 0 <= s < NUM_STATUS_CODES
    case Observed => false
    case Stray => false
    case _ => true
  }

  /** Events that are counted while the new pass streams by. */
  predicate Streamed(ev: Event) {
    InRange(ev) && !ev.MissingCell? && !ev.TargetOf?
  }

  /** Events the finished comparison reports; the last column stands for the missing targets. */
  predicate Reported(ev: Event) {
    InRange(ev) && (ev.Cell? ==> ev.to < NUM_STATUS_CODES)
  }

  class Result {
    var matrix: Matrix
    var targets: seq<nat>
    var ptrUnchanged: nat
    var ptrChanged: nat
    var fcBothChecked: nat
    var fcMatchBoth: nat
    var fcMatchOldOnly: nat
    var fcMatchNewOnly: nat
    var fcMatchNeither: nat
    var gainedTotal: nat
    var gainedChecked: nat
    var gainedMatch: nat
    var oldDupTargets: nat
    var newDupRecords: nat
    var unexpectedNew: nat

    constructor ()
      ensures Snap().Valid()
      ensures forall ev | InRange(ev) :: Snap().Get(ev) == 0
      ensures oldDupTargets == newDupRecords == unexpectedNew == 0
    {
      matrix := seq(NUM_STATUS_CODES, _ => [0, 0, 0, 0, 0, 0, 0, 0, 0]);
      targets := [0, 0, 0, 0, 0, 0, 0, 0];
      ptrUnchanged, ptrChanged := 0, 0;
      fcBothChecked, fcMatchBoth, fcMatchOldOnly, fcMatchNewOnly, fcMatchNeither := 0, 0, 0, 0, 0;
      gainedTotal, gainedChecked, gainedMatch := 0, 0, 0;
      oldDupTargets, newDupRecords, unexpectedNew := 0, 0, 0;
    }

    ghost function Snap(): Totals
      reads this
    {
      Totals(matrix, targets, ptrUnchanged, ptrChanged,
             fcBothChecked, fcMatchBoth, fcMatchOldOnly, fcMatchNewOnly, fcMatchNeither,
             gainedTotal, gainedChecked, gainedMatch)
    }

    /** Changed or unchanged, by hash, for a has_ptr -> has_ptr target. */
    method TallyNames(e: OldEnt, r: Rec)
      requires BothPtr(e, r)
      modifies this`ptrUnchanged, this`ptrChanged
      ensures ptrUnchanged == old(ptrUnchanged) + One(HappensWith(SameNames, e, r))
      ensures ptrChanged == old(ptrChanged) + One(HappensWith(NewNames, e, r))
    {
      hide HashNames;
      var h := ComputeHash(r.ptr);
      if e.hash == h {
        ptrUnchanged := ptrUnchanged + 1;
      } else {
        ptrChanged := ptrChanged + 1;
      }
    }

    /** The forward-confirmation table of a has_ptr -> has_ptr target. */
    method TallyFc(e: OldEnt, r: Rec)
      requires BothPtr(e, r)
      modifies this`fcBothChecked, this`fcMatchBoth, this`fcMatchOldOnly, this`fcMatchNewOnly, this`fcMatchNeither
      ensures fcBothChecked == old(fcBothChecked) + One(HappensWith(BothChecked, e, r))
      ensures fcMatchBoth == old(fcMatchBoth) + One(HappensWith(FcCell(true, true), e, r))
      ensures fcMatchOldOnly == old(fcMatchOldOnly) + One(HappensWith(FcCell(true, false), e, r))
      ensures fcMatchNewOnly == old(fcMatchNewOnly) + One(HappensWith(FcCell(false, true), e, r))
      ensures fcMatchNeither == old(fcMatchNeither) + One(HappensWith(FcCell(false, false), e, r))
    {
      hide HasFlag;
      if Checked(e) && r.fcChecked {
        fcBothChecked := fcBothChecked + 1;
        if Confirmed(e) && r.fcMatch {
          fcMatchBoth := fcMatchBoth + 1;
        } else if Confirmed(e) {
          fcMatchOldOnly := fcMatchOldOnly + 1;
        } else if r.fcMatch {
          fcMatchNewOnly := fcMatchNewOnly + 1;
        } else {
          fcMatchNeither := fcMatchNeither + 1;
        }
      }
    }

    /** A target that gained a PTR. */
    method TallyGained(e: OldEnt, r: Rec)
      requires Gains(e, r)
      modifies this`gainedTotal, this`gainedChecked, this`gainedMatch
      ensures gainedTotal == old(gainedTotal) + One(HappensWith(GainedPtr, e, r))
      ensures gainedChecked == old(gainedChecked) + One(HappensWith(GainedChecked, e, r))
      ensures gainedMatch == old(gainedMatch) + One(HappensWith(GainedMatch, e, r))
    {
      gainedTotal := gainedTotal + 1;
      if r.fcChecked {
        gainedChecked := gainedChecked + 1;
        if r.fcMatch {
          gainedMatch := gainedMatch + 1;
        }
      }
    }

    /** The body of the join callback for a target that meets its first new record. */
    method Tally(e: OldEnt, r: Rec)
      requires Snap().Valid() && e.status < NUM_STATUS_CODES && r.status <= MISSING_COL
      modifies this`matrix, this`ptrUnchanged, this`ptrChanged, this`fcBothChecked, this`fcMatchBoth,
               this`fcMatchOldOnly, this`fcMatchNewOnly, this`fcMatchNeither,
               this`gainedTotal, this`gainedChecked, this`gainedMatch
      ensures Snap().Valid() && Met(old(Snap()), Snap(), e, r)
    {
      hide HappensWith, BumpCell, Met, Shaped;
      SteppedMeets(Snap(), e, r);
      Quiet(e, r);
      matrix := BumpCell(matrix, e.status, r.status);
      if HasPtrCode(e.status) && HasPtrCode(r.status) {
        TallyNames(e, r);
        TallyFc(e, r);
      }
      if !HasPtrCode(e.status) && HasPtrCode(r.status) {
        TallyGained(e, r);
      }
      assert Snap() == Stepped(old(Snap()), e, r);
    }
  }

  /** Events that need a PTR on both sides, or a gained one, happen to nobody else. */
  lemma Quiet(e: OldEnt, r: Rec)
    ensures !BothPtr(e, r) ==> !HappensWith(SameNames, e, r) && !HappensWith(NewNames, e, r)
                               && !HappensWith(BothChecked, e, r)
                               && forall was, now :: !HappensWith(FcCell(was, now), e, r)
    ensures !Gains(e, r) ==> !HappensWith(GainedPtr, e, r) && !HappensWith(GainedChecked, e, r)
                             && !HappensWith(GainedMatch, e, r)
  {
  }

  /** All statistics after target e met record r, field by field. */
  function Stepped(t: Totals, e: OldEnt, r: Rec): Totals
    requires t.Valid() && e.status < NUM_STATUS_CODES && r.status <= MISSING_COL
  {
    Totals(BumpCell(t.matrix, e.status, r.status), t.targets,
           t.ptrUnchanged + One(HappensWith(SameNames, e, r)),
           t.ptrChanged + One(HappensWith(NewNames, e, r)),
           t.bothChecked + One(HappensWith(BothChecked, e, r)),
           t.matchBoth + One(HappensWith(FcCell(true, true), e, r)),
           t.matchOldOnly + One(HappensWith(FcCell(true, false), e, r)),
           t.matchNewOnly + One(HappensWith(FcCell(false, true), e, r)),
           t.matchNeither + One(HappensWith(FcCell(false, false), e, r)),
           t.gained + One(HappensWith(GainedPtr, e, r)),
           t.gainedChecked + One(HappensWith(GainedChecked, e, r)),
           t.gainedMatch + One(HappensWith(GainedMatch, e, r)))
  }

  lemma SteppedMeets(t: Totals, e: OldEnt, r: Rec)
    requires t.Valid() && e.status < NUM_STATUS_CODES && r.status <= MISSING_COL
    ensures Stepped(t, e, r).Valid() && Met(t, Stepped(t, e, r), e, r)
  {
    hide HashNames, Checked, Confirmed, BothPtr, Gains;
    var after := Stepped(t, e, r);
    forall ev | Streamed(ev) ensures after.Get(ev) == t.Get(ev) + (if HappensWith(ev, e, r) then 1 else 0) {
      if ev.FcCell? {
        assert ev == FcCell(ev.was, ev.now);
      }
    }
  }

  /** Exactly the events of target e meeting record r were counted. */
  ghost predicate Met(before: Totals, after: Totals, e: OldEnt, r: Rec) {
    && before.Valid() && after.Valid()
    && (forall ev | Streamed(ev) :: after.Get(ev) == before.Get(ev) + (if HappensWith(ev, e, r) then 1 else 0))
    && after.targets == before.targets
  }

  // ----- loading the old side -----

  /** `loadOldTargets` on the scanned records. */
  method LoadOldTargets(recs: seq<Rec>, mask: uint16) returns (ents: seq<OldEnt>)
    ensures ents == Targets(mask, recs)
  {
    hide MaskHas, HashNames, PackedFlags;
    ents := [];
    var i := 0;
    while i < |recs|
      invariant 0 <= i <= |recs|
      invariant ents == Targets(mask, recs[..i])
    {
      var r := recs[i];
      assert recs[..i + 1][..i] == recs[..i];
      if MaskHas(mask, r.status) {
        var h: bv64 := 0;
        if HasPtrCode(r.status) {
          h := ComputeHash(r.ptr);
        }
        ents := ents + [OldEnt(r.ip, r.status, PackedFlags(r), h)];
      }
      i := i + 1;
    }
    assert recs[..|recs|] == recs;
  }

  /** `dedupSorted`: the in-place compaction, which leaves lists shorter than two alone. */
  method Dedup(sorted: seq<OldEnt>) returns (ents: seq<OldEnt>, dropped: nat)
    ensures ents == DedupAdjacent(OldIp, sorted)
    ensures dropped == |sorted| - |ents|
  {
    hide DedupAdjacent;
    ents, dropped := sorted, 0;
    if |sorted| < 2 {
      DedupShort(sorted);
      return;
    }
    var out := 1;
    var i := 1;
    DedupShort(sorted[..1]);
    while i < |sorted|
      invariant 1 <= out <= i <= |sorted| == |ents|
      invariant ents[..out] == DedupAdjacent(OldIp, sorted[..i])
      invariant ents[i..] == sorted[i..]
      invariant dropped == i - out
    {
      ghost var kept := ents[..out];
      DedupStep(OldIp, sorted, i);
      CompactStep(ents, sorted, kept, i);
      assert ents[out - 1] == kept[out - 1];
      if ents[i].ip == ents[out - 1].ip {
        dropped := dropped + 1;
      } else {
        ents := ents[out := ents[i]];
        out := out + 1;
      }
      i := i + 1;
    }
    assert sorted[..|sorted|] == sorted;
    ents := ents[..out];
  }

  lemma DedupShort(s: seq<OldEnt>)
    requires |s| < 2
    ensures DedupAdjacent(OldIp, s) == s
  {
    if s != [] {
      assert s[..|s| - 1] == [];
    }
  }

  // ----- joining the new pass -----

  function MarkSeen(e: OldEnt): OldEnt {
    e.(flags := SetFlag(e.flags, F_SEEN))
  }

  /** The seen bits are exactly the targets whose address the new records have met. */
  ghost predicate SeenState(ents: seq<OldEnt>, targets: seq<OldEnt>, news: seq<Rec>) {
    && |ents| == |targets|
    && forall i | 0 <= i < |ents| ::
         ents[i] == if FirstWith(RecIp, news, targets[i].ip).Some? then MarkSeen(targets[i]) else targets[i]
  }

  ghost predicate FreshTargets(targets: seq<OldEnt>) {
    && StrictlySortedBy(OldIp, targets)
    && forall i | 0 <= i < |targets| :: !Seen(targets[i]) && targets[i].status < NUM_STATUS_CODES
  }

  lemma MarkSeenSets(e: OldEnt)
    ensures Seen(MarkSeen(e))
    ensures MarkSeen(e).ip == e.ip && MarkSeen(e).status == e.status
    ensures MarkSeen(e).hash == e.hash
    ensures Checked(MarkSeen(e)) == Checked(e) && Confirmed(MarkSeen(e)) == Confirmed(e)
  {
  }

  lemma SeenStateSorted(ents: seq<OldEnt>, targets: seq<OldEnt>, news: seq<Rec>)
    requires SeenState(ents, targets, news) && StrictlySortedBy(OldIp, targets)
    ensures SortedBy(OldIp, ents) && |ents| == |targets|
    ensures forall i | 0 <= i < |ents| :: ents[i].ip == targets[i].ip
  {
    hide FirstWith, SetFlag;
  }

  /** `sort.Search` for the target with this address. */
  method FindTarget(ents: seq<OldEnt>, ip: uint32) returns (i: nat, found: bool)
    requires SortedBy(OldIp, ents)
    ensures found ==> i < |ents| && ents[i].ip == ip
    ensures !found ==> forall k | 0 <= k < |ents| :: ents[k].ip != ip
  {
    i := Search(OldIp, ents, ip);
    found := i < |ents| && ents[i].ip == ip;
    if !found {
      forall k | 0 <= k < |ents| ensures ents[k].ip != ip {
        if k >= i {
          assert OldIp(ents[k]) >= OldIp(ents[i]);
        }
      }
    }
  }

  /** The statistics after these new records: what they were, plus the events of every target so far. */
  ghost predicate Joined(before: Totals, after: Totals, targets: seq<OldEnt>, news: seq<Rec>) {
    && before.Valid() && after.Valid()
    && (forall ev | Streamed(ev) :: after.Get(ev) == before.Get(ev) + EventCount(ev, targets, news))
    && after.targets == before.targets
  }

  /** The statistics outside the matrix, counted over old records. */
  ghost predicate ScalarsCounted(b: Totals, a: Totals, olds: seq<Rec>, news: seq<Rec>) {
    && a.ptrUnchanged == b.ptrUnchanged + RecordCount(SameNames, olds, news)
    && a.ptrChanged == b.ptrChanged + RecordCount(NewNames, olds, news)
    && a.bothChecked == b.bothChecked + RecordCount(BothChecked, olds, news)
    && a.matchBoth == b.matchBoth + RecordCount(FcCell(true, true), olds, news)
    && a.matchOldOnly == b.matchOldOnly + RecordCount(FcCell(true, false), olds, news)
    && a.matchNewOnly == b.matchNewOnly + RecordCount(FcCell(false, true), olds, news)
    && a.matchNeither == b.matchNeither + RecordCount(FcCell(false, false), olds, news)
    && a.gained == b.gained + RecordCount(GainedPtr, olds, news)
    && a.gainedChecked == b.gainedChecked + RecordCount(GainedChecked, olds, news)
    && a.gainedMatch == b.gainedMatch + RecordCount(GainedMatch, olds, news)
  }

  lemma ScalarsOnRecords(b: Totals, a: Totals, olds: seq<Rec>, news: seq<Rec>)
    requires b.Valid() && a.Valid()
    requires forall ev | Streamed(ev) && !ev.Cell? :: a.Get(ev) == b.Get(ev) + RecordCount(ev, olds, news)
    ensures ScalarsCounted(b, a, olds, news)
  {
    hide RecordCount;
    assert a.Get(SameNames) == a.ptrUnchanged && b.Get(SameNames) == b.ptrUnchanged;
    assert a.Get(NewNames) == a.ptrChanged && b.Get(NewNames) == b.ptrChanged;
    assert a.Get(BothChecked) == a.bothChecked && b.Get(BothChecked) == b.bothChecked;
    assert a.Get(FcCell(true, true)) == a.matchBoth && b.Get(FcCell(true, true)) == b.matchBoth;
    assert a.Get(FcCell(true, false)) == a.matchOldOnly && b.Get(FcCell(true, false)) == b.matchOldOnly;
    assert a.Get(FcCell(false, true)) == a.matchNewOnly && b.Get(FcCell(false, true)) == b.matchNewOnly;
    assert a.Get(FcCell(false, false)) == a.matchNeither && b.Get(FcCell(false, false)) == b.matchNeither;
    assert a.Get(GainedPtr) == a.gained && b.Get(GainedPtr) == b.gained;
    assert a.Get(GainedChecked) == a.gainedChecked && b.Get(GainedChecked) == b.gainedChecked;
    assert a.Get(GainedMatch) == a.gainedMatch && b.Get(GainedMatch) == b.gainedMatch;
  }

  /** The statistics of the join, counted over old records. */
  ghost predicate JoinedRecords(b: Totals, a: Totals, olds: seq<Rec>, news: seq<Rec>) {
    && b.Valid() && a.Valid()
    && (forall s, t | 0 <= s < NUM_STATUS_CODES && 0 <= t <= MISSING_COL ::
          a.matrix[s][t] == b.matrix[s][t] + RecordCount(Cell(s, t), olds, news))
    && ScalarsCounted(b, a, olds, news)
  }

  lemma JoinedOnRecords(b: Totals, a: Totals, targets: seq<OldEnt>, olds: seq<Rec>, news: seq<Rec>)
    requires Joined(b, a, targets, news) && targets == Ents(olds)
    ensures JoinedRecords(b, a, olds, news)
  {
    hide EventCount, RecordCount, Ents, ScalarsCounted;
    forall ev: Event ensures EventCount(ev, targets, news) == RecordCount(ev, olds, news) {
      CountsOnRecords(ev, olds, news);
    }
    forall s, t | 0 <= s < NUM_STATUS_CODES && 0 <= t <= MISSING_COL
      ensures a.matrix[s][t] == b.matrix[s][t] + RecordCount(Cell(s, t), olds, news)
    {
      assert a.Get(Cell(s, t)) == a.matrix[s][t] && b.Get(Cell(s, t)) == b.matrix[s][t];
    }
    ScalarsOnRecords(b, a, olds, news);
  }

  lemma JoinedNothing(t: Totals, targets: seq<OldEnt>)
    requires t.Valid()
    ensures Joined(t, t, targets, [])
    ensures EventCount(Observed, targets, []) == 0
  {
    hide Totals.Get, EventCount;
    forall ev | Streamed(ev) ensures EventCount(ev, targets, []) == 0 {
      NoEventsYet(ev, targets);
    }
    NoEventsYet(Observed, targets);
  }

  lemma JoinedSkip(before: Totals, after: Totals, targets: seq<OldEnt>, news: seq<Rec>, r: Rec)
    requires Joined(before, after, targets, news)
    requires FirstWith(RecIp, news, r.ip).Some? || forall i | 0 <= i < |targets| :: targets[i].ip != r.ip
    ensures Joined(before, after, targets, news + [r])
    ensures EventCount(Observed, targets, news + [r]) == EventCount(Observed, targets, news)
  {
    hide Totals.Get, EventCount, FirstWith;
    forall ev: Event ensures EventCount(ev, targets, news + [r]) == EventCount(ev, targets, news) {
      EventCountUnchanged(ev, targets, news, r);
    }
  }

  lemma JoinedMeet(before: Totals, mid: Totals, after: Totals, targets: seq<OldEnt>, news: seq<Rec>, r: Rec, i: nat)
    requires Joined(before, mid, targets, news) && StrictlySortedBy(OldIp, targets)
    requires i < |targets| && targets[i].ip == r.ip && FirstWith(RecIp, news, r.ip).None?
    requires Met(mid, after, targets[i], r)
    ensures Joined(before, after, targets, news + [r])
    ensures EventCount(Observed, targets, news + [r]) == EventCount(Observed, targets, news) + 1
  {
    hide Totals.Get, EventCount, FirstWith, HappensWith;
    StrictIsDistinct(OldIp, targets);
    forall ev | Streamed(ev)
      ensures EventCount(ev, targets, news + [r])
           == EventCount(ev, targets, news) + (if HappensWith(ev, targets[i], r) then 1 else 0)
    {
      EventCountMeets(ev, targets, news, r, i);
    }
    EventCountMeets(Observed, targets, news, r, i);
    ObservedHappens(targets[i], r);
  }

  lemma ObservedHappens(e: OldEnt, r: Rec)
    ensures Happens(Observed, e, Some(r)) && !Happens(Observed, e, None)
  {
  }

  lemma SeenStateSkip(ents: seq<OldEnt>, targets: seq<OldEnt>, news: seq<Rec>, r: Rec)
    requires SeenState(ents, targets, news)
    requires FirstWith(RecIp, news, r.ip).Some? || forall i | 0 <= i < |targets| :: targets[i].ip != r.ip
    ensures SeenState(ents, targets, news + [r])
  {
    hide FirstWith, SetFlag;
    forall i | 0 <= i < |targets|
      ensures FirstWith(RecIp, news + [r], targets[i].ip).Some? == FirstWith(RecIp, news, targets[i].ip).Some?
    {
      FirstSnoc(RecIp, news, r, targets[i].ip);
    }
  }

  lemma SeenStateMeet(ents: seq<OldEnt>, targets: seq<OldEnt>, news: seq<Rec>, r: Rec, i: nat)
    requires SeenState(ents, targets, news) && StrictlySortedBy(OldIp, targets)
    requires i < |targets| && targets[i].ip == r.ip && FirstWith(RecIp, news, r.ip).None?
    ensures ents[i] == targets[i]
    ensures SeenState(ents[i := MarkSeen(ents[i])], targets, news + [r])
  {
    hide FirstWith, SetFlag;
    forall k | 0 <= k < |targets|
      ensures FirstWith(RecIp, news + [r], targets[k].ip).Some? <==> k == i || FirstWith(RecIp, news, targets[k].ip).Some?
    {
      FirstSnoc(RecIp, news, r, targets[k].ip);
      assert k != i ==> OldIp(targets[k]) != OldIp(targets[i]);
    }
  }

  /** `joinNewPass`: streams the new records against the sorted targets. */
  method JoinNewPass(news: seq<Rec>, targets: seq<OldEnt>, res: Result) returns (ents: seq<OldEnt>)
    requires FreshTargets(targets) && res.Snap().Valid() && Joinable(targets, news)
    modifies res
    ensures SeenState(ents, targets, news)
    ensures Joined(old(res.Snap()), res.Snap(), targets, news)
    ensures forall olds | targets == Ents(olds) :: JoinedRecords(old(res.Snap()), res.Snap(), olds, news)
    ensures res.oldDupTargets == old(res.oldDupTargets)
    ensures res.unexpectedNew == old(res.unexpectedNew) + Strangers(targets, news)
    ensures res.newDupRecords + res.unexpectedNew + EventCount(Observed, targets, news)
         == old(res.newDupRecords) + old(res.unexpectedNew) + |news|
  {
    hide FirstWith, EventCount, Totals.Get, HasFlag, SetFlag, Joined, Met, HappensWith, SeenState, JoinedRecords, Ents, Strangers;
    ents := targets;
    NothingSeen(targets);
    JoinedNothing(res.Snap(), targets);
    var k := 0;
    assert news[..0] == [] && Strangers(targets, []) == 0 by { NoStrangers(targets); }
    while k < |news|
      invariant 0 <= k <= |news| && res.Snap().Valid()
      invariant SeenState(ents, targets, news[..k])
      invariant Joined(old(res.Snap()), res.Snap(), targets, news[..k])
      invariant res.oldDupTargets == old(res.oldDupTargets)
      invariant res.unexpectedNew == old(res.unexpectedNew) + Strangers(targets, news[..k])
      invariant res.newDupRecords + res.unexpectedNew + EventCount(Observed, targets, news[..k])
             == old(res.newDupRecords) + old(res.unexpectedNew) + k
    {
      var r := news[k];
      assert news[..k + 1] == news[..k] + [r];
      SeenStateSorted(ents, targets, news[..k]);
      var i, found := FindTarget(ents, r.ip);
      StrangersSnoc(targets, news[..k], r);
      TargetFound(ents, targets, r.ip);
      if !found {
        res.unexpectedNew := res.unexpectedNew + 1;
        JoinedSkip(old(res.Snap()), res.Snap(), targets, news[..k], r);
        SeenStateSkip(ents, targets, news[..k], r);
      } else {
        SeenBit(ents, targets, news[..k], i);
        if Seen(ents[i]) {
          res.newDupRecords := res.newDupRecords + 1;
          JoinedSkip(old(res.Snap()), res.Snap(), targets, news[..k], r);
          SeenStateSkip(ents, targets, news[..k], r);
        } else {
          SeenStateMeet(ents, targets, news[..k], r, i);
          MetIsFirst(targets, news, k, i);
          ghost var mid := res.Snap();
          var e := ents[i];
          ents := ents[i := MarkSeen(e)];
          res.Tally(e, r);
          JoinedMeet(old(res.Snap()), mid, res.Snap(), targets, news[..k], r, i);
        }
      }
      k := k + 1;
    }
    assert news[..|news|] == news;
    forall olds | targets == Ents(olds) ensures JoinedRecords(old(res.Snap()), res.Snap(), olds, news) {
      JoinedOnRecords(old(res.Snap()), res.Snap(), targets, olds, news);
    }
  }

  lemma NoStrangers(targets: seq<OldEnt>)
    ensures Strangers(targets, []) == 0
  {
  }

  lemma TargetFound(ents: seq<OldEnt>, targets: seq<OldEnt>, ip: int)
    requires |ents| == |targets| && forall i | 0 <= i < |ents| :: ents[i].ip == targets[i].ip
    ensures FirstWith(OldIp, targets, ip).Some? <==> exists i | 0 <= i < |ents| :: ents[i].ip == ip
  {
    hide FirstWith;
    if FirstWith(OldIp, targets, ip).Some? {
      var i :| 0 <= i < |targets| && targets[i] == FirstWith(OldIp, targets, ip).value;
      assert ents[i].ip == ip;
    }
  }

  /** The record a target meets is the first of its address, so its status has a column. */
  lemma MetIsFirst(targets: seq<OldEnt>, news: seq<Rec>, k: nat, i: nat)
    requires Joinable(targets, news) && k < |news| && i < |targets| && targets[i].ip == news[k].ip
    requires FirstWith(RecIp, news[..k], news[k].ip).None?
    ensures news[k].status <= MISSING_COL
  {
    hide FirstWith;
    FirstSnoc(RecIp, news[..k], news[k], news[k].ip);
    assert news[..k + 1] == news[..k] + [news[k]];
    FirstOfPrefix(RecIp, news, k + 1, news[k].ip);
    assert targets[i] in targets;
  }

  lemma NothingSeen(targets: seq<OldEnt>)
    ensures SeenState(targets, targets, [])
  {
  }

  lemma SeenBit(ents: seq<OldEnt>, targets: seq<OldEnt>, news: seq<Rec>, i: nat)
    requires SeenState(ents, targets, news) && FreshTargets(targets) && i < |ents|
    ensures Seen(ents[i]) <==> FirstWith(RecIp, news, targets[i].ip).Some?
  {
    hide FirstWith, HasFlag, SetFlag;
    MarkSeenSets(targets[i]);
  }

  // ----- one shard pair -----

  /** Every statistic grew by the number of targets its event happened to. */
  ghost predicate Compared(before: Totals, after: Totals, targets: seq<OldEnt>, news: seq<Rec>) {
    && before.Valid() && after.Valid()
    && forall ev | Reported(ev) :: after.Get(ev) == before.Get(ev) + EventCount(ev, targets, news)
  }

  lemma EventCountStep(ev: Event, targets: seq<OldEnt>, i: nat, news: seq<Rec>)
    requires i < |targets|
    ensures EventCount(ev, targets[..i + 1], news)
         == EventCount(ev, targets[..i], news) + One(Happens(ev, targets[i], FirstWith(RecIp, news, targets[i].ip)))
  {
    assert targets[..i + 1][..i] == targets[..i];
  }

  /** `res.Targets[status]++` for every target. */
  method CountTargets(ents: seq<OldEnt>, counts: seq<nat>, ghost news: seq<Rec>) returns (r: seq<nat>)
    requires |counts| == NUM_STATUS_CODES
    requires forall i | 0 <= i < |ents| :: ents[i].status < NUM_STATUS_CODES
    ensures |r| == NUM_STATUS_CODES
    ensures forall s | 0 <= s < NUM_STATUS_CODES :: r[s] == counts[s] + EventCount(TargetOf(s), ents, news)
  {
    hide EventCount, FirstWith, HappensWith;
    r := counts;
    var i := 0;
    forall s ensures EventCount(TargetOf(s), ents[..0], news) == 0 {
      NoTargets(TargetOf(s), ents, news);
    }
    while i < |ents|
      invariant 0 <= i <= |ents| && |r| == NUM_STATUS_CODES
      invariant forall s | 0 <= s < NUM_STATUS_CODES :: r[s] == counts[s] + EventCount(TargetOf(s), ents[..i], news)
    {
      forall s ensures EventCount(TargetOf(s), ents[..i + 1], news)
                    == EventCount(TargetOf(s), ents[..i], news) + One(ents[i].status == s) {
        EventCountStep(TargetOf(s), ents, i, news);
      }
      r := r[ents[i].status := r[ents[i].status] + 1];
      i := i + 1;
    }
    assert ents[..|ents|] == ents;
  }

  lemma NoTargets(ev: Event, targets: seq<OldEnt>, news: seq<Rec>)
    ensures EventCount(ev, targets[..0], news) == 0
  {
  }

  /** The matrix after the "missing" column has been filled in for these targets. */
  ghost predicate MissingFilled(before: Matrix, after: Matrix, targets: seq<OldEnt>, news: seq<Rec>) {
    && Shaped(before) && Shaped(after)
    && (forall s, t | 0 <= s < NUM_STATUS_CODES && 0 <= t < NUM_STATUS_CODES :: after[s][t] == before[s][t])
    && (forall s | 0 <= s < NUM_STATUS_CODES ::
          after[s][MISSING_COL] == before[s][MISSING_COL] + EventCount(Unseen(s), targets, news))
  }

  /** Targets never observed in the new pass. */
  method CountMissing(ents: seq<OldEnt>, m: Matrix, ghost targets: seq<OldEnt>, ghost news: seq<Rec>)
    returns (r: Matrix)
    requires Shaped(m) && SeenState(ents, targets, news) && FreshTargets(targets)
    ensures MissingFilled(m, r, targets, news)
  {
    hide EventCount, FirstWith, HappensWith, SeenState, Seen;
    r := m;
    var i := 0;
    SeenStateSorted(ents, targets, news);
    forall s ensures EventCount(Unseen(s), targets[..0], news) == 0 {
      NoTargets(Unseen(s), targets, news);
    }
    while i < |ents|
      invariant 0 <= i <= |ents| && MissingFilled(m, r, targets[..i], news)
    {
      SeenBit(ents, targets, news, i);
      SameStatus(ents, targets, news, i);
      ghost var miss := FirstWith(RecIp, news, targets[i].ip).None?;
      forall s ensures EventCount(Unseen(s), targets[..i + 1], news)
                    == EventCount(Unseen(s), targets[..i], news) + One(miss && targets[i].status == s) {
        EventCountStep(Unseen(s), targets, i, news);
      }
      if !Seen(ents[i]) {
        r := BumpCell(r, ents[i].status, MISSING_COL);
      }
      i := i + 1;
    }
    assert targets[..|targets|] == targets;
  }

  lemma SameStatus(ents: seq<OldEnt>, targets: seq<OldEnt>, news: seq<Rec>, i: nat)
    requires SeenState(ents, targets, news) && i < |ents|
    ensures i < |targets| && ents[i].status == targets[i].status
  {
    hide FirstWith, SetFlag;
  }

  /** Every record the mask selects has a row in the matrix. */
  predicate MaskedAssigned(mask: uint16, recs: seq<Rec>) {
    forall r | r in recs && MaskHas(mask, r.status) :: AssignedStatus(r)
  }

  /** A mask of assigned codes, as `ParseStatuses` builds it, selects no other record. */
  lemma AssignedMask(mask: uint16, recs: seq<Rec>)
    requires mask < 256
    ensures MaskedAssigned(mask, recs)
  {
    forall r | r in recs && MaskHas(mask, r.status) ensures AssignedStatus(r) {
      HighBitsClear(mask, r.status);
    }
  }

  lemma HighBitsClear(mask: nat, k: nat)
    requires mask < 256
    ensures Bit(mask, k) ==> k < 8
  {
    hide Bit;
    if k >= 8 {
      ShiftEight(mask, k);
      NoBitInZero(k - 8);
    }
  }

  lemma ShiftEight(w: nat, k: nat)
    requires k >= 8
    ensures Bit(w, k) == Bit(w / 256, k - 8)
  {
    assert Bit(w, k) == Bit(w / 2, k - 1) == Bit(w / 2 / 2, k - 2) == Bit(w / 2 / 2 / 2, k - 3);
    assert Bit(w / 8, k - 3) == Bit(w / 8 / 2, k - 4) == Bit(w / 8 / 2 / 2, k - 5) == Bit(w / 8 / 2 / 2 / 2, k - 6);
    assert Bit(w / 64, k - 6) == Bit(w / 64 / 2, k - 7) == Bit(w / 64 / 2 / 2, k - 8);
  }

  lemma {:induction false} TargetsFresh(mask: uint16, recs: seq<Rec>)
    requires MaskedAssigned(mask, recs)
    ensures forall e | e in Targets(mask, recs) :: !Seen(e) && e.status < NUM_STATUS_CODES
  {
    hide MaskHas, HashNames;
    if recs != [] {
      var r := recs[|recs| - 1];
      TargetsFresh(mask, recs[..|recs| - 1]);
      assert r in recs && PackedFlags(r) < 4;
      assert !Seen(ToEnt(r));
    }
  }

  lemma {:induction false} DedupSubset(s: seq<OldEnt>)
    ensures forall e | e in DedupAdjacent(OldIp, s) :: e in s
  {
    if s != [] {
      DedupSubset(s[..|s| - 1]);
    }
  }

  /** The target set the join works on. */
  ghost predicate TargetTable(targets: seq<OldEnt>, mask: uint16, olds: seq<Rec>) {
    && FreshTargets(targets)
    && (forall e | e in targets :: e in Targets(mask, olds))
    && (forall ip :: FirstWith(OldIp, targets, ip).Some? <==> FirstWith(OldIp, Targets(mask, olds), ip).Some?)
    && (DistinctKeys(OldIp, Targets(mask, olds)) ==> multiset(targets) == multiset(Targets(mask, olds)))
  }

  lemma SameKeys(s: seq<OldEnt>, t: seq<OldEnt>, ip: int)
    requires multiset(s) == multiset(t)
    ensures FirstWith(OldIp, s, ip).Some? <==> FirstWith(OldIp, t, ip).Some?
  {
    hide FirstWith;
    forall i | 0 <= i < |s| ensures s[i] in t {
      assert s[i] in multiset(t);
    }
    forall i | 0 <= i < |t| ensures t[i] in s {
      assert t[i] in multiset(s);
    }
  }

  /** Loading, sorting and deduplicating the old side. */
  method LoadTable(olds: seq<Rec>, mask: uint16) returns (ents: seq<OldEnt>, dups: nat)
    requires MaskedAssigned(mask, olds)
    ensures TargetTable(ents, mask, olds)
    ensures |ents| + dups == |Targets(mask, olds)|
  {
    hide MaskHas, HashNames, Targets, DedupAdjacent, Seen, FirstWith;
    var loaded := LoadOldTargets(olds, mask);
    var sorted := UnstableSort(OldIp, loaded);
    ents, dups := Dedup(sorted);
    DedupStrict(OldIp, sorted);
    DedupSubset(sorted);
    TargetsFresh(mask, olds);
    forall e | e in ents ensures e in loaded {
      assert e in multiset(sorted);
    }
    forall i | 0 <= i < |ents| ensures !Seen(ents[i]) && ents[i].status < NUM_STATUS_CODES {
      assert ents[i] in loaded;
    }
    forall ip ensures FirstWith(OldIp, ents, ip).Some? <==> FirstWith(OldIp, loaded, ip).Some? {
      DedupKeepsFirst(OldIp, sorted, ip);
      SameKeys(loaded, sorted, ip);
    }
    if DistinctKeys(OldIp, loaded) {
      DistinctPermutation(OldIp, loaded, sorted);
      DedupDistinct(OldIp, sorted);
    }
  }

  /**
    The comparison of one shard pair: every statistic counts exactly the targets
    its event happened to, and every record of both passes is accounted for.
    */
  method CompareShard(olds: seq<Rec>, news: seq<Rec>, mask: uint16, res: Result)
    returns (ghost targets: seq<OldEnt>, ghost chosen: seq<Rec>)
    requires res.Snap().Valid()
    requires MaskedAssigned(mask, olds) && Joinable(Targets(mask, olds), news)
    modifies res
    ensures TargetTable(targets, mask, olds)
    ensures Compared(old(res.Snap()), res.Snap(), targets, news)
    ensures targets == Ents(chosen) && Chosen(chosen, mask, olds)
    // field by field, on the records themselves
    ensures res.Snap().Valid() && forall s, t | 0 <= s < NUM_STATUS_CODES && 0 <= t < NUM_STATUS_CODES ::
              res.matrix[s][t] == old(res.matrix)[s][t] + RecordCount(Cell(s, t), chosen, news)
    ensures forall s | 0 <= s < NUM_STATUS_CODES ::
              && res.matrix[s][MISSING_COL] == old(res.matrix)[s][MISSING_COL] + RecordCount(MissingCell(s), chosen, news)
              && res.targets[s] == old(res.targets)[s] + RecordCount(TargetOf(s), chosen, news)
    ensures res.ptrUnchanged == old(res.ptrUnchanged) + RecordCount(SameNames, chosen, news)
    ensures res.ptrChanged == old(res.ptrChanged) + RecordCount(NewNames, chosen, news)
    ensures res.fcBothChecked == old(res.fcBothChecked) + RecordCount(BothChecked, chosen, news)
    ensures res.fcMatchBoth == old(res.fcMatchBoth) + RecordCount(FcCell(true, true), chosen, news)
    ensures res.fcMatchOldOnly == old(res.fcMatchOldOnly) + RecordCount(FcCell(true, false), chosen, news)
    ensures res.fcMatchNewOnly == old(res.fcMatchNewOnly) + RecordCount(FcCell(false, true), chosen, news)
    ensures res.fcMatchNeither == old(res.fcMatchNeither) + RecordCount(FcCell(false, false), chosen, news)
    ensures res.gainedTotal == old(res.gainedTotal) + RecordCount(GainedPtr, chosen, news)
    ensures res.gainedChecked == old(res.gainedChecked) + RecordCount(GainedChecked, chosen, news)
    ensures res.gainedMatch == old(res.gainedMatch) + RecordCount(GainedMatch, chosen, news)
    ensures |targets| + res.oldDupTargets == old(res.oldDupTargets) + |Targets(mask, olds)|
    ensures res.unexpectedNew == old(res.unexpectedNew) + Strangers(targets, news)
    ensures res.newDupRecords + res.unexpectedNew + EventCount(Observed, targets, news)
         == old(res.newDupRecords) + old(res.unexpectedNew) + |news|
  {
    hide EventCount, Targets, SeenState, Joined, MissingFilled, Shaped, Seen, Compared, RecordCount, Chosen, Ents,
         JoinedRecords;
    var loaded, dups := LoadTable(olds, mask);
    targets := loaded;
    res.oldDupTargets := res.oldDupTargets + dups;
    ghost var t0 := res.Snap();
    var counts := CountTargets(loaded, res.targets, news);
    res.targets := counts;
    ghost var t1 := res.Snap();
    var ents := JoinNewPass(news, loaded, res);
    ghost var t2 := res.Snap();
    JoinedValid(t1, t2, targets, news);
    var m := CountMissing(ents, res.matrix, targets, news);
    res.matrix := m;
    Assembled(t0, t1, t2, res.Snap(), targets, news);
    chosen := ChooseRecords(targets, mask, olds) by { StrictIsDistinct(OldIp, targets); }
    ComparedOnRecords(t0, res.Snap(), targets, chosen, news);
  }

  /** The same statistics after the whole pair, counted over old records. */
  ghost predicate ComparedRecords(b: Totals, a: Totals, olds: seq<Rec>, news: seq<Rec>) {
    && b.Valid() && a.Valid()
    && (forall s, t | 0 <= s < NUM_STATUS_CODES && 0 <= t < NUM_STATUS_CODES ::
          a.matrix[s][t] == b.matrix[s][t] + RecordCount(Cell(s, t), olds, news))
    && (forall s | 0 <= s < NUM_STATUS_CODES ::
          && a.matrix[s][MISSING_COL] == b.matrix[s][MISSING_COL] + RecordCount(MissingCell(s), olds, news)
          && a.targets[s] == b.targets[s] + RecordCount(TargetOf(s), olds, news))
    && ScalarsCounted(b, a, olds, news)
  }

  lemma ComparedOnRecords(b: Totals, a: Totals, targets: seq<OldEnt>, olds: seq<Rec>, news: seq<Rec>)
    requires Compared(b, a, targets, news) && targets == Ents(olds)
    ensures ComparedRecords(b, a, olds, news)
  {
    hide EventCount, RecordCount, Ents, ScalarsCounted;
    forall ev: Event ensures EventCount(ev, targets, news) == RecordCount(ev, olds, news) {
      CountsOnRecords(ev, olds, news);
    }
    forall s, t | 0 <= s < NUM_STATUS_CODES && 0 <= t < NUM_STATUS_CODES
      ensures a.matrix[s][t] == b.matrix[s][t] + RecordCount(Cell(s, t), olds, news)
    {
      assert a.Get(Cell(s, t)) == a.matrix[s][t] && b.Get(Cell(s, t)) == b.matrix[s][t];
    }
    forall s | 0 <= s < NUM_STATUS_CODES
      ensures a.matrix[s][MISSING_COL] == b.matrix[s][MISSING_COL] + RecordCount(MissingCell(s), olds, news)
      ensures a.targets[s] == b.targets[s] + RecordCount(TargetOf(s), olds, news)
    {
      assert a.Get(MissingCell(s)) == a.matrix[s][MISSING_COL] && b.Get(MissingCell(s)) == b.matrix[s][MISSING_COL];
      assert a.Get(TargetOf(s)) == a.targets[s] && b.Get(TargetOf(s)) == b.targets[s];
    }
    ScalarsOnRecords(b, a, olds, news);
  }

  lemma JoinedValid(before: Totals, after: Totals, targets: seq<OldEnt>, news: seq<Rec>)
    requires Joined(before, after, targets, news)
    ensures after.Valid()
  {
  }

  lemma Assembled(t0: Totals, t1: Totals, t2: Totals, t3: Totals, targets: seq<OldEnt>, news: seq<Rec>)
    requires t0.Valid() && t1.Valid() && t1 == t0.(targets := t1.targets)
    requires forall s | 0 <= s < NUM_STATUS_CODES :: t1.targets[s] == t0.targets[s] + EventCount(TargetOf(s), targets, news)
    requires Joined(t1, t2, targets, news)
    requires t3 == t2.(matrix := t3.matrix) && MissingFilled(t2.matrix, t3.matrix, targets, news)
    ensures Compared(t0, t3, targets, news)
  {
    hide EventCount;
    assert t3.Valid();
    forall ev | Reported(ev) ensures t3.Get(ev) == t0.Get(ev) + EventCount(ev, targets, news) {
      if ev.MissingCell? {
        assert t2.Get(Cell(ev.from, MISSING_COL)) == t2.matrix[ev.from][MISSING_COL];
        MissingSplit(ev.from, targets, news);
      } else if ev.TargetOf? {
        assert ev == TargetOf(ev.from);
      } else {
        assert Streamed(ev);
        assert t3.Get(ev) == t2.Get(ev);
      }
    }
  }
}
