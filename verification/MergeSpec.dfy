/**
  What merging a re-crawl into its baseline means (internal/merge/merge.go),
  stated on plain record lists: no bitmap, no table, no arena.
  */
module MergeSpec {
  import opened Model
  import opened Sorting
  import opened Names
  import opened Writer

  function RecIp(r: Rec): int { r.ip }

  predicate AssignedStatus(r: Rec) {
    r.status < NUM_STATUS_CODES
  }

  // ----- names in the arena: NUL-joined -----

  /** `strings.Join(names, "\x00")` */
  function Join(names: seq<Name>): Name {
    if names == [] then []
    else if |names| == 1 then names[0]
    else names[0] + [NUL] + Join(names[1..])
  }

  /** `strings.Split(s, "\x00")` */
  function Split(s: Name): (r: seq<Name>)
    ensures r != []
  {
    if s == [] then [[]]
    else
      var r := Split(s[1..]);
      if s[0] == NUL then [[]] + r else [[s[0]] + r[0]] + r[1..]
  }

  lemma {:induction false} SplitNulFree(s: Name)
    ensures forall n | n in Split(s) :: NulFree(n)
  {
    if s != [] {
      SplitNulFree(s[1..]);
      assert Split(s[1..])[0] in Split(s[1..]);
    }
  }

  lemma {:induction false} SplitOne(n: Name)
    requires NulFree(n)
    ensures Split(n) == [n]
  {
    if n != [] {
      SplitOne(n[1..]);
      assert n == [n[0]] + n[1..];
    }
  }

  lemma {:induction false} SplitConcat(s: Name, rest: Name)
    ensures Split(s + [NUL] + rest) == Split(s) + Split(rest)
  {
    var all := s + [NUL] + rest;
    if s == [] {
      assert all[1..] == rest;
    } else {
      assert all[1..] == s[1..] + [NUL] + rest && all[0] == s[0];
      SplitConcat(s[1..], rest);
    }
  }

  lemma {:induction false} SplitJoin(names: seq<Name>)
    requires names != [] && forall n | n in names :: NulFree(n)
    ensures Split(Join(names)) == names
  {
    assert names[0] in names;
    if |names| == 1 {
      SplitOne(names[0]);
    } else {
      SplitJoin(names[1..]);
      SplitOne(names[0]);
      SplitConcat(names[0], Join(names[1..]));
    }
  }

  /** The name list of a has_ptr record after its trip through the arena. */
  function Rejoined(names: seq<Name>): seq<Name> {
    Split(Join(names))
  }

  /**
    The arena returns a name list unchanged exactly when it is not empty and no
    name holds a NUL; an empty list comes back as one empty name.
    */
  lemma RejoinedFaithful(names: seq<Name>)
    ensures Rejoined(names) == names <==> names != [] && forall n | n in names :: NulFree(n)
    ensures Rejoined([]) == [[]]
  {
    if names != [] && forall n | n in names :: NulFree(n) {
      SplitJoin(names);
    } else if Rejoined(names) == names {
      SplitNulFree(Join(names));
    }
  }

  // ----- the documented rule -----

  predicate HasPtrCode(c: StatusCode) { c == CODE_HAS_PTR }

  predicate AuthoritativeNegative(c: StatusCode) {
    c == CODE_NXDOMAIN || c == CODE_NOERROR_EMPTY
  }

  function FcOf(r: Rec): Option<bool> {
    if r.fcChecked then Some(r.fcMatch) else None
  }

  /** `toRecord` */
  function ToRecord(r: Rec): Record {
    Record(r.ip, StatusString(r.status), r.ptr, FcOf(r))
  }

  /** `entRecord`: the record written for a re-crawled address. */
  function FromNew(n: Rec): Record {
    Record(n.ip, StatusString(n.status), if HasPtrCode(n.status) then Rejoined(n.ptr) else [], FcOf(n))
  }

  /** The record the merged dataset holds for baseline record o and new observation n. */
  function MergedRecord(mask: uint16, o: Rec, n: Option<Rec>): Record {
    if !MaskHas(mask, o.status) then ToRecord(o)                // not re-crawled
    else if n.None? then ToRecord(o)                            // crash hole
    else if HasPtrCode(n.value.status) || AuthoritativeNegative(n.value.status) then FromNew(n.value)
    else if HasPtrCode(o.status) then ToRecord(o)               // grace policy
    else FromNew(n.value)                                       // still failing, newest wins
  }

  /** The status code under which the merged histogram counts that record. */
  function CountedCode(mask: uint16, o: Rec, n: Option<Rec>): StatusCode {
    if !MaskHas(mask, o.status) || n.None? then o.status
    else if HasPtrCode(n.value.status) || AuthoritativeNegative(n.value.status) then n.value.status
    else if HasPtrCode(o.status) then o.status
    else n.value.status
  }

  /** The histogram has a place for it; the source's array index faults otherwise. */
  predicate Countable(mask: uint16, o: Rec, n: Option<Rec>) {
    CountedCode(mask, o, n) < NUM_STATUS_CODES
  }

  /** That holds at every baseline address. */
  ghost predicate AllCountable(mask: uint16, olds: seq<Rec>, news: seq<Rec>) {
    forall ip :: FirstWith(RecIp, olds, ip).Some? ==>
                   Countable(mask, FirstWith(RecIp, olds, ip).value, FirstWith(RecIp, news, ip))
  }

  /** What happened to a baseline record, as the counters classify it. */
  datatype Fate =
    | Outside | Missing | Unchanged | Changed | Gained | RemovedAuth | NewNegative | GraceKept | StillFailing

  /** The fate of a record whose new observation has these names. */
  function PtrFate(o: Rec, names: seq<Name>): Fate {
    if !HasPtrCode(o.status) then Gained
    else if HashNames(o.ptr) == HashNames(names) then Unchanged
    else Changed
  }

  function FateOf(mask: uint16, o: Rec, n: Option<Rec>): Fate {
    if !MaskHas(mask, o.status) then Outside
    else if n.None? then Missing
    else if HasPtrCode(n.value.status) then PtrFate(o, Rejoined(n.value.ptr))
    else if AuthoritativeNegative(n.value.status) then
      if HasPtrCode(o.status) then RemovedAuth else NewNegative
    else
      if HasPtrCode(o.status) then GraceKept else StillFailing
  }

  /** The baseline with repeated addresses removed: the first observation in file order wins. */
  function Firsts(recs: seq<Rec>): seq<Rec> {
    if recs == [] then []
    else
      var init, last := recs[..|recs| - 1], recs[|recs| - 1];
      if FirstWith(RecIp, init, last.ip).Some? then Firsts(init) else Firsts(init) + [last]
  }

  function MergeAll(mask: uint16, olds: seq<Rec>, news: seq<Rec>): (out: seq<Record>)
    ensures |out| == |olds|
  {
    if olds == [] then []
    else
      var o := olds[|olds| - 1];
      MergeAll(mask, olds[..|olds| - 1], news) + [MergedRecord(mask, o, FirstWith(RecIp, news, o.ip))]
  }

  function FateCount(f: Fate, mask: uint16, olds: seq<Rec>, news: seq<Rec>): nat {
    if olds == [] then 0
    else
      var o := olds[|olds| - 1];
      FateCount(f, mask, olds[..|olds| - 1], news)
      + (if FateOf(mask, o, FirstWith(RecIp, news, o.ip)) == f then 1 else 0)
  }

  /** How many baseline records met a new observation. */
  function MatchedCount(mask: uint16, olds: seq<Rec>, news: seq<Rec>): nat {
    if olds == [] then 0
    else
      var o := olds[|olds| - 1];
      MatchedCount(mask, olds[..|olds| - 1], news)
      + (if MaskHas(mask, o.status) && FirstWith(RecIp, news, o.ip).Some? then 1 else 0)
  }

  /** Assigned codes on both sides are more than enough. */
  lemma AssignedIsCountable(mask: uint16, olds: seq<Rec>, news: seq<Rec>)
    requires (forall r | r in olds :: AssignedStatus(r)) && (forall r | r in news :: AssignedStatus(r))
    ensures AllCountable(mask, olds, news)
  {
    hide FirstWith, MaskHas;
  }

  /** A countable record is stored under the code it was counted under. */
  lemma StoredAsCounted(mask: uint16, o: Rec, n: Option<Rec>)
    requires Countable(mask, o, n)
    ensures Code(MergedRecord(mask, o, n).status) == CountedCode(mask, o, n)
  {
    hide MaskHas, Rejoined;
  }

  // ----- one-step unfoldings -----

  lemma FirstsStep(recs: seq<Rec>, i: nat)
    requires i < |recs|
    ensures Firsts(recs[..i + 1])
         == if FirstWith(RecIp, recs[..i], recs[i].ip).Some? then Firsts(recs[..i]) else Firsts(recs[..i]) + [recs[i]]
  {
    assert recs[..i + 1][..i] == recs[..i];
  }

  lemma MergeAllSnoc(mask: uint16, olds: seq<Rec>, o: Rec, news: seq<Rec>)
    ensures MergeAll(mask, olds + [o], news)
         == MergeAll(mask, olds, news) + [MergedRecord(mask, o, FirstWith(RecIp, news, o.ip))]
  {
    assert (olds + [o])[..|olds|] == olds;
  }

  lemma FateCountSnoc(f: Fate, mask: uint16, olds: seq<Rec>, o: Rec, news: seq<Rec>)
    ensures FateCount(f, mask, olds + [o], news)
         == FateCount(f, mask, olds, news) + (if FateOf(mask, o, FirstWith(RecIp, news, o.ip)) == f then 1 else 0)
  {
    assert (olds + [o])[..|olds|] == olds;
  }

  lemma MatchedCountSnoc(mask: uint16, olds: seq<Rec>, o: Rec, news: seq<Rec>)
    ensures MatchedCount(mask, olds + [o], news)
         == MatchedCount(mask, olds, news)
            + (if MaskHas(mask, o.status) && FirstWith(RecIp, news, o.ip).Some? then 1 else 0)
  {
    assert (olds + [o])[..|olds|] == olds;
  }

  // ----- the simple map -----

  lemma {:induction false} FirstsKeepFirst(recs: seq<Rec>, ip: int)
    ensures FirstWith(RecIp, Firsts(recs), ip) == FirstWith(RecIp, recs, ip)
  {
    if recs != [] {
      var init, last := recs[..|recs| - 1], recs[|recs| - 1];
      FirstsKeepFirst(init, ip);
      assert (Firsts(init) + [last])[..|Firsts(init)|] == Firsts(init);
    }
  }

  lemma {:induction false} FirstsDistinct(recs: seq<Rec>)
    ensures DistinctKeys(RecIp, Firsts(recs))
  {
    hide FirstWith;
    if recs != [] {
      var init, last := recs[..|recs| - 1], recs[|recs| - 1];
      FirstsDistinct(init);
      FirstsKeepFirst(init, last.ip);
    }
  }

  lemma {:induction false} FirstsOfDistinct(recs: seq<Rec>)
    requires DistinctKeys(RecIp, recs)
    ensures Firsts(recs) == recs
  {
    hide FirstWith;
    if recs != [] {
      var init, last := recs[..|recs| - 1], recs[|recs| - 1];
      FirstsOfDistinct(init);
      assert recs == init + [last];
      forall i | 0 <= i < |init| ensures RecIp(init[i]) != last.ip {
        assert RecIp(recs[i]) != RecIp(recs[|recs| - 1]);
      }
    }
  }

  lemma MergedIp(mask: uint16, o: Rec, n: Option<Rec>)
    requires n.Some? ==> n.value.ip == o.ip
    ensures MergedRecord(mask, o, n).ip == o.ip
  {
  }

  /** What the merged dataset says about one address. */
  function MergedAt(mask: uint16, olds: seq<Rec>, news: seq<Rec>, ip: int): Option<Record> {
    match FirstWith(RecIp, olds, ip)
    case None => None
    case Some(o) => Some(MergedRecord(mask, o, FirstWith(RecIp, news, ip)))
  }

  lemma {:induction false} MergeAllAt(mask: uint16, olds: seq<Rec>, news: seq<Rec>, ip: int)
    ensures FirstWith(RecordIp, MergeAll(mask, olds, news), ip) == MergedAt(mask, olds, news, ip)
  {
    hide MergedRecord;
    if olds != [] {
      var init, o := olds[..|olds| - 1], olds[|olds| - 1];
      MergeAllAt(mask, init, news, ip);
      MergedIp(mask, o, FirstWith(RecIp, news, o.ip));
      var out := MergeAll(mask, olds, news);
      assert out[..|out| - 1] == MergeAll(mask, init, news);
    }
  }

  lemma {:induction false} MergeAllDistinct(mask: uint16, olds: seq<Rec>, news: seq<Rec>)
    requires DistinctKeys(RecIp, olds)
    ensures DistinctKeys(RecordIp, MergeAll(mask, olds, news))
  {
    hide MergedRecord, MaskHas;
    if olds != [] {
      var init, o := olds[..|olds| - 1], olds[|olds| - 1];
      MergeAllDistinct(mask, init, news);
      var out := MergeAll(mask, init, news);
      MergedIp(mask, o, FirstWith(RecIp, news, o.ip));
      MergeAllAt(mask, init, news, o.ip);
    }
  }

  /**
    The merged dataset is a simple map: exactly one record per distinct baseline
    address and none for any other, and it is the documented rule applied to the
    first baseline and the first new record of that address in file order.
    */
  lemma MergeIsMap(mask: uint16, baseline: seq<Rec>, news: seq<Rec>)
    ensures var out := MergeAll(mask, Firsts(baseline), news);
            && DistinctKeys(RecordIp, out)
            && forall ip :: FirstWith(RecordIp, out, ip) == MergedAt(mask, baseline, news, ip)
  {
    hide MergedRecord, MergeAll;
    var firsts := Firsts(baseline);
    FirstsDistinct(baseline);
    MergeAllDistinct(mask, firsts, news);
    forall ip ensures FirstWith(RecordIp, MergeAll(mask, firsts, news), ip) == MergedAt(mask, baseline, news, ip) {
      FirstsKeepFirst(baseline, ip);
      MergeAllAt(mask, firsts, news, ip);
    }
  }
}
