/**
  What comparing two passes means (internal/compare/compare.go): every target of
  the old pass meets the first new record of its address, and each statistic
  counts the targets for which some event happens.
  */
module CompareSpec {
  import opened Model
  import opened Bits
  import opened Counting
  import opened Sorting
  import opened Names
  import opened MergeSpec

  const F_FC_CHECKED := 1
  const F_FC_MATCH := 2
  const F_SEEN := 4

  /** The virtual "no new observation" column. A stored status code 8 would be counted in it too. */
  const MISSING_COL := NUM_STATUS_CODES

  /** One target of the previous pass. */
  datatype OldEnt = OldEnt(ip: uint32, status: StatusCode, flags: byte, hash: bv64)

  function OldIp(e: OldEnt): int { e.ip }

  predicate Checked(e: OldEnt) { HasFlag(e.flags, F_FC_CHECKED) }
  predicate Confirmed(e: OldEnt) { HasFlag(e.flags, F_FC_MATCH) }
  predicate Seen(e: OldEnt) { HasFlag(e.flags, F_SEEN) }

  function PackedFlags(r: Rec): (f: byte)
    ensures f < 4
  {
    if !r.fcChecked then 0
    else
      var f := SetFlag(0, F_FC_CHECKED);
      if r.fcMatch then SetFlag(f, F_FC_MATCH) else f
  }

  function ToEnt(r: Rec): OldEnt {
    OldEnt(r.ip, r.status, PackedFlags(r), if HasPtrCode(r.status) then HashNames(r.ptr) else 0)
  }

  /** The masked records of the old pass as targets, in file order. */
  function Targets(mask: uint16, recs: seq<Rec>): seq<OldEnt> {
    if recs == [] then []
    else
      var r := recs[|recs| - 1];
      Targets(mask, recs[..|recs| - 1]) + (if MaskHas(mask, r.status) then [ToEnt(r)] else [])
  }

  // ----- events -----

  datatype Event =
    | Cell(from: int, to: int)        // met a record of status `to`
    | Unseen(from: int)               // met no new record
    | MissingCell(from: int)          // counted in the missing column
    | TargetOf(from: int)             // a target with this old status
    | Observed                        // met some new record
    | Stray                           // met a record whose code is the missing column's
    | SameNames | NewNames            // has_ptr -> has_ptr, by hash
    | BothChecked | FcCell(was: bool, now: bool)
    | GainedPtr | GainedChecked | GainedMatch

  predicate BothPtr(e: OldEnt, n: Rec) {
    HasPtrCode(e.status) && HasPtrCode(n.status)
  }

  predicate Gains(e: OldEnt, n: Rec) {
    !HasPtrCode(e.status) && HasPtrCode(n.status)
  }

  /** Does the event happen to target e when n is the first new record of its address? */
  predicate Happens(ev: Event, e: OldEnt, n: Option<Rec>) {
    match ev
    case TargetOf(s) => e.status == s
    case Unseen(s) => n.None? && e.status == s
    case MissingCell(s) => (n.None? || n.value.status == MISSING_COL) && e.status == s
    case _ => n.Some? && HappensWith(ev, e, n.value)
  }

  predicate HappensWith(ev: Event, e: OldEnt, n: Rec) {
    match ev
    case Cell(s, t) => e.status == s && n.status == t
    case Observed => true
    case Stray => n.status == MISSING_COL
    case SameNames => BothPtr(e, n) && e.hash == HashNames(n.ptr)
    case NewNames => BothPtr(e, n) && e.hash != HashNames(n.ptr)
    case BothChecked => BothPtr(e, n) && Checked(e) && n.fcChecked
    case FcCell(was, now) => BothPtr(e, n) && Checked(e) && n.fcChecked && Confirmed(e) == was && n.fcMatch == now
    case GainedPtr => Gains(e, n)
    case GainedChecked => Gains(e, n) && n.fcChecked
    case GainedMatch => Gains(e, n) && n.fcChecked && n.fcMatch
    case _ => false
  }

  function One(b: bool): nat {
    if b then 1 else 0
  }

  function EventCount(ev: Event, targets: seq<OldEnt>, news: seq<Rec>): nat {
    if targets == [] then 0
    else
      var e := targets[|targets| - 1];
      EventCount(ev, targets[..|targets| - 1], news)
      + (if Happens(ev, e, FirstWith(RecIp, news, e.ip)) then 1 else 0)
  }

  lemma EventCountSnoc(ev: Event, targets: seq<OldEnt>, e: OldEnt, news: seq<Rec>)
    ensures EventCount(ev, targets + [e], news)
         == EventCount(ev, targets, news) + (if Happens(ev, e, FirstWith(RecIp, news, e.ip)) then 1 else 0)
  {
    assert (targets + [e])[..|targets|] == targets;
  }

  lemma {:induction false} EventCountConcat(ev: Event, s: seq<OldEnt>, t: seq<OldEnt>, news: seq<Rec>)
    ensures EventCount(ev, s + t, news) == EventCount(ev, s, news) + EventCount(ev, t, news)
  {
    hide Happens, FirstWith;
    if t == [] {
      assert s + t == s;
    } else {
      var init, e := t[..|t| - 1], t[|t| - 1];
      EventCountConcat(ev, s, init, news);
      assert s + t == (s + init) + [e];
      EventCountSnoc(ev, s + init, e, news);
    }
  }

  lemma EventCountRemove(ev: Event, t: seq<OldEnt>, i: nat, news: seq<Rec>)
    requires i < |t|
    ensures EventCount(ev, t, news) == EventCount(ev, t[..i] + t[i + 1..], news)
                                       + (if Happens(ev, t[i], FirstWith(RecIp, news, t[i].ip)) then 1 else 0)
  {
    hide EventCount, Happens, FirstWith;
    var before, behind := t[..i], t[i + 1..];
    assert t == before + [t[i]] + behind;
    EventCountConcat(ev, before, behind, news);
    EventCountSnoc(ev, before, t[i], news);
    EventCountConcat(ev, before + [t[i]], behind, news);
  }

  /** The statistics do not depend on the order the targets are kept in. */
  lemma {:induction false} EventCountPermutation(ev: Event, s: seq<OldEnt>, t: seq<OldEnt>, news: seq<Rec>)
    requires multiset(s) == multiset(t)
    ensures EventCount(ev, s, news) == EventCount(ev, t, news)
    decreases |s|
  {
    hide Happens, FirstWith;
    if s == [] {
      assert |multiset(t)| == 0;
    } else {
      var n := |s| - 1;
      assert s == s[..n] + [s[n]] && s[..n] + s[n + 1..] == s[..n];
      assert s[n] in multiset(t);
      var i :| 0 <= i < |t| && t[i] == s[n];
      WithoutOne(s[..n], s[n], t, i);
      EventCountPermutation(ev, s[..n], t[..i] + t[i + 1..], news);
      EventCountRemove(ev, t, i, news);
    }
  }

  /** How many new records have no target. */
  function Strangers(targets: seq<OldEnt>, news: seq<Rec>): nat {
    if news == [] then 0
    else Strangers(targets, news[..|news| - 1]) + One(FirstWith(OldIp, targets, news[|news| - 1].ip).None?)
  }

  lemma StrangersSnoc(targets: seq<OldEnt>, news: seq<Rec>, r: Rec)
    ensures Strangers(targets, news + [r]) == Strangers(targets, news) + One(FirstWith(OldIp, targets, r.ip).None?)
  {
    assert (news + [r])[..|news|] == news;
  }

  // ----- how the statistics grow with the new pass -----

  /** A new record that no waiting target has changes nothing. */
  lemma {:induction false} EventCountUnchanged(ev: Event, targets: seq<OldEnt>, news: seq<Rec>, r: Rec)
    requires FirstWith(RecIp, news, r.ip).Some? || forall i | 0 <= i < |targets| :: targets[i].ip != r.ip
    ensures EventCount(ev, targets, news + [r]) == EventCount(ev, targets, news)
  {
    hide Happens, FirstWith;
    if targets != [] {
      var e := targets[|targets| - 1];
      EventCountUnchanged(ev, targets[..|targets| - 1], news, r);
      FirstSnoc(RecIp, news, r, e.ip);
    }
  }

  /** The first new record of a target's address moves that target, and only that one. */
  lemma {:induction false} EventCountMeets(ev: Event, targets: seq<OldEnt>, news: seq<Rec>, r: Rec, i: nat)
    requires DistinctKeys(OldIp, targets) && i < |targets| && targets[i].ip == r.ip
    requires FirstWith(RecIp, news, r.ip).None?
    ensures EventCount(ev, targets, news + [r]) + (if Happens(ev, targets[i], None) then 1 else 0)
         == EventCount(ev, targets, news) + (if Happens(ev, targets[i], Some(r)) then 1 else 0)
  {
    hide Happens, FirstWith;
    var n := |targets| - 1;
    var e := targets[n];
    FirstSnoc(RecIp, news, r, e.ip);
    if i < n {
      EventCountMeets(ev, targets[..n], news, r, i);
      assert OldIp(targets[i]) != OldIp(targets[n]);
    } else {
      forall j | 0 <= j < n ensures targets[..n][j].ip != r.ip {
        assert OldIp(targets[j]) != OldIp(targets[i]);
      }
      EventCountUnchanged(ev, targets[..n], news, r);
    }
  }

  lemma {:induction false} NoEventsYet(ev: Event, targets: seq<OldEnt>)
    requires !ev.Unseen? && !ev.MissingCell? && !ev.TargetOf?
    ensures EventCount(ev, targets, []) == 0
  {
    if targets != [] {
      NoEventsYet(ev, targets[..|targets| - 1]);
    }
  }

  // ----- conservation -----

  /** No target meets a record whose status code has no column: the join's matrix index does not fault. */
  ghost predicate Joinable(targets: seq<OldEnt>, news: seq<Rec>) {
    forall e | e in targets ::
      var n := FirstWith(RecIp, news, e.ip);
      n.Some? ==> n.value.status <= MISSING_COL
  }

  // One target at a time: n is the first new record of its address.

  lemma OneRow(s: int, e: OldEnt, n: Option<Rec>)
    requires n.Some? ==> n.value.status <= MISSING_COL
    ensures One(Happens(Cell(s, 0), e, n)) + One(Happens(Cell(s, 1), e, n)) + One(Happens(Cell(s, 2), e, n))
            + One(Happens(Cell(s, 3), e, n)) + One(Happens(Cell(s, 4), e, n)) + One(Happens(Cell(s, 5), e, n))
            + One(Happens(Cell(s, 6), e, n)) + One(Happens(Cell(s, 7), e, n)) + One(Happens(MissingCell(s), e, n))
         == One(Happens(TargetOf(s), e, n))
  {
  }

  lemma OneMissing(s: int, e: OldEnt, n: Option<Rec>)
    ensures One(Happens(MissingCell(s), e, n)) == One(Happens(Unseen(s), e, n)) + One(Happens(Cell(s, MISSING_COL), e, n))
  {
  }

  lemma OnePtrCell(e: OldEnt, n: Option<Rec>)
    ensures One(Happens(SameNames, e, n)) + One(Happens(NewNames, e, n)) == One(Happens(Cell(0, 0), e, n))
    ensures One(Happens(FcCell(true, true), e, n)) + One(Happens(FcCell(true, false), e, n))
            + One(Happens(FcCell(false, true), e, n)) + One(Happens(FcCell(false, false), e, n))
         == One(Happens(BothChecked, e, n))
  {
    hide HashNames, HasFlag;
  }

  lemma OneTarget(e: OldEnt, n: Option<Rec>)
    requires e.status < NUM_STATUS_CODES
    ensures One(Happens(TargetOf(0), e, n)) + One(Happens(TargetOf(1), e, n)) + One(Happens(TargetOf(2), e, n))
            + One(Happens(TargetOf(3), e, n)) + One(Happens(TargetOf(4), e, n)) + One(Happens(TargetOf(5), e, n))
            + One(Happens(TargetOf(6), e, n)) + One(Happens(TargetOf(7), e, n))
         == 1
  {
  }

  lemma OneObserved(e: OldEnt, n: Option<Rec>)
    requires e.status < NUM_STATUS_CODES
    ensures One(Happens(Observed, e, n)) - One(Happens(Stray, e, n))
            + One(Happens(MissingCell(0), e, n)) + One(Happens(MissingCell(1), e, n)) + One(Happens(MissingCell(2), e, n))
            + One(Happens(MissingCell(3), e, n)) + One(Happens(MissingCell(4), e, n)) + One(Happens(MissingCell(5), e, n))
            + One(Happens(MissingCell(6), e, n)) + One(Happens(MissingCell(7), e, n))
         == 1
  {
  }

  lemma OneGained(e: OldEnt, n: Option<Rec>)
    requires e.status < NUM_STATUS_CODES
    ensures One(Happens(GainedPtr, e, n))
         == One(Happens(Cell(1, 0), e, n)) + One(Happens(Cell(2, 0), e, n)) + One(Happens(Cell(3, 0), e, n))
            + One(Happens(Cell(4, 0), e, n)) + One(Happens(Cell(5, 0), e, n)) + One(Happens(Cell(6, 0), e, n))
            + One(Happens(Cell(7, 0), e, n))
    ensures Happens(GainedMatch, e, n) ==> Happens(GainedChecked, e, n)
    ensures Happens(GainedChecked, e, n) ==> Happens(GainedPtr, e, n)
  {
  }

  /** What the missing column counts. */
  lemma {:induction false} MissingSplit(s: int, targets: seq<OldEnt>, news: seq<Rec>)
    ensures EventCount(MissingCell(s), targets, news)
         == EventCount(Unseen(s), targets, news) + EventCount(Cell(s, MISSING_COL), targets, news)
  {
    hide FirstWith, Happens;
    if targets != [] {
      var e := targets[|targets| - 1];
      var n := FirstWith(RecIp, news, e.ip);
      MissingSplit(s, targets[..|targets| - 1], news);
      OneMissing(s, e, n);
    }
  }

  /** Every row of the transition matrix, "missing" included, sums to its target count. */
  lemma {:induction false} RowConserved(s: int, targets: seq<OldEnt>, news: seq<Rec>)
    requires Joinable(targets, news)
    ensures EventCount(Cell(s, 0), targets, news) + EventCount(Cell(s, 1), targets, news)
            + EventCount(Cell(s, 2), targets, news) + EventCount(Cell(s, 3), targets, news)
            + EventCount(Cell(s, 4), targets, news) + EventCount(Cell(s, 5), targets, news)
            + EventCount(Cell(s, 6), targets, news) + EventCount(Cell(s, 7), targets, news)
            + EventCount(MissingCell(s), targets, news)
         == EventCount(TargetOf(s), targets, news)
  {
    hide FirstWith, Happens;
    if targets != [] {
      var e := targets[|targets| - 1];
      var n := FirstWith(RecIp, news, e.ip);
      RowConserved(s, targets[..|targets| - 1], news);
      OneRow(s, e, n);
    }
  }

  /** unchanged + changed = the has_ptr/has_ptr cell; the four FCrDNS cells sum to both-checked. */
  lemma {:induction false} PtrCellsConserved(targets: seq<OldEnt>, news: seq<Rec>)
    ensures EventCount(SameNames, targets, news) + EventCount(NewNames, targets, news)
         == EventCount(Cell(0, 0), targets, news)
    ensures EventCount(FcCell(true, true), targets, news) + EventCount(FcCell(true, false), targets, news)
            + EventCount(FcCell(false, true), targets, news) + EventCount(FcCell(false, false), targets, news)
         == EventCount(BothChecked, targets, news)
  {
    hide FirstWith, Happens;
    if targets != [] {
      var e := targets[|targets| - 1];
      var n := FirstWith(RecIp, news, e.ip);
      PtrCellsConserved(targets[..|targets| - 1], news);
      OnePtrCell(e, n);
    }
  }

  /** Every target has one of the eight statuses. */
  lemma {:induction false} TargetsConserved(targets: seq<OldEnt>, news: seq<Rec>)
    requires forall i | 0 <= i < |targets| :: targets[i].status < NUM_STATUS_CODES
    ensures EventCount(TargetOf(0), targets, news) + EventCount(TargetOf(1), targets, news)
            + EventCount(TargetOf(2), targets, news) + EventCount(TargetOf(3), targets, news)
            + EventCount(TargetOf(4), targets, news) + EventCount(TargetOf(5), targets, news)
            + EventCount(TargetOf(6), targets, news) + EventCount(TargetOf(7), targets, news)
         == |targets|
  {
    hide FirstWith, Happens;
    if targets != [] {
      var e := targets[|targets| - 1];
      var n := FirstWith(RecIp, news, e.ip);
      TargetsConserved(targets[..|targets| - 1], news);
      OneTarget(e, n);
    }
  }

  /** Every target is either observed or in exactly one missing cell, but for the strays, which are both. */
  lemma {:induction false} ObservedOrMissing(targets: seq<OldEnt>, news: seq<Rec>)
    requires forall i | 0 <= i < |targets| :: targets[i].status < NUM_STATUS_CODES
    ensures EventCount(Observed, targets, news) - EventCount(Stray, targets, news)
            + EventCount(MissingCell(0), targets, news) + EventCount(MissingCell(1), targets, news)
            + EventCount(MissingCell(2), targets, news) + EventCount(MissingCell(3), targets, news)
            + EventCount(MissingCell(4), targets, news) + EventCount(MissingCell(5), targets, news)
            + EventCount(MissingCell(6), targets, news) + EventCount(MissingCell(7), targets, news)
         == |targets|
  {
    hide FirstWith, Happens;
    if targets != [] {
      var e := targets[|targets| - 1];
      var n := FirstWith(RecIp, news, e.ip);
      ObservedOrMissing(targets[..|targets| - 1], news);
      OneObserved(e, n);
    }
  }

  /** Records with assigned codes are never strays. */
  lemma {:induction false} NoStrays(targets: seq<OldEnt>, news: seq<Rec>)
    requires forall r | r in news :: AssignedStatus(r)
    ensures EventCount(Stray, targets, news) == 0 && Joinable(targets, news)
  {
    hide FirstWith;
    if targets != [] {
      NoStrays(targets[..|targets| - 1], news);
    }
  }

  /** The gained PTRs are the has_ptr column outside the has_ptr row. */
  lemma {:induction false} GainedConserved(targets: seq<OldEnt>, news: seq<Rec>)
    requires forall i | 0 <= i < |targets| :: targets[i].status < NUM_STATUS_CODES
    ensures EventCount(GainedPtr, targets, news)
         == EventCount(Cell(1, 0), targets, news) + EventCount(Cell(2, 0), targets, news)
            + EventCount(Cell(3, 0), targets, news) + EventCount(Cell(4, 0), targets, news)
            + EventCount(Cell(5, 0), targets, news) + EventCount(Cell(6, 0), targets, news)
            + EventCount(Cell(7, 0), targets, news)
    ensures EventCount(GainedMatch, targets, news) <= EventCount(GainedChecked, targets, news)
                                                   <= EventCount(GainedPtr, targets, news)
  {
    hide FirstWith, Happens;
    if targets != [] {
      var e := targets[|targets| - 1];
      var n := FirstWith(RecIp, news, e.ip);
      GainedConserved(targets[..|targets| - 1], news);
      OneGained(e, n);
    }
  }
}
