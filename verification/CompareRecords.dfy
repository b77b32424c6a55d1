/**
  What the comparison counts, on the records of the two passes alone: no packed
  flags, no stored hashes, no table of targets.
  */
module CompareRecords {
  import opened Model
  import opened Bits
  import opened Sorting
  import opened Names
  import opened MergeSpec
  import opened CompareSpec

  /** Old record o and new record n both have PTRs and both were checked forward. */
  predicate CheckedTwice(o: Rec, n: Option<Rec>) {
    n.Some? && o.status == 0 && n.value.status == 0 && o.fcChecked && n.value.fcChecked
  }

  /** The event befalls old record o whose address the new pass first reports as n. */
  predicate Occurs(ev: Event, o: Rec, n: Option<Rec>) {
    match ev
    case TargetOf(s) => o.status == s
    case Unseen(s) => o.status == s && n.None?
    case MissingCell(s) => o.status == s && (n.None? || n.value.status == 8)
    case Cell(s, t) => o.status == s && n.Some? && n.value.status == t
    case Observed => n.Some?
    case Stray => n.Some? && n.value.status == 8
    case SameNames => o.status == 0 && n.Some? && n.value.status == 0 && HashNames(o.ptr) == HashNames(n.value.ptr)
    case NewNames => o.status == 0 && n.Some? && n.value.status == 0 && HashNames(o.ptr) != HashNames(n.value.ptr)
    case BothChecked => CheckedTwice(o, n)
    case FcCell(was, now) => CheckedTwice(o, n) && o.fcMatch == was && n.value.fcMatch == now
    case GainedPtr => o.status != 0 && n.Some? && n.value.status == 0
    case GainedChecked => o.status != 0 && n.Some? && n.value.status == 0 && n.value.fcChecked
    case GainedMatch => o.status != 0 && n.Some? && n.value.status == 0 && n.value.fcChecked && n.value.fcMatch
  }

  /** How many of these old records it befalls. */
  function RecordCount(ev: Event, olds: seq<Rec>, news: seq<Rec>): nat {
    if olds == [] then 0
    else
      var o := olds[|olds| - 1];
      RecordCount(ev, olds[..|olds| - 1], news) + One(Occurs(ev, o, FirstWith(RecIp, news, o.ip)))
  }

  /** The targets made of these records. */
  function Ents(olds: seq<Rec>): (ents: seq<OldEnt>)
    ensures |ents| == |olds|
  {
    if olds == [] then [] else Ents(olds[..|olds| - 1]) + [ToEnt(olds[|olds| - 1])]
  }

  lemma FlagsPacked(r: Rec)
    ensures HasFlag(PackedFlags(r), F_FC_CHECKED) == r.fcChecked
    ensures r.fcChecked ==> HasFlag(PackedFlags(r), F_FC_MATCH) == r.fcMatch
  {
  }

  /** The packed target tells of the event what the record itself does. */
  lemma OccursIffHappens(ev: Event, o: Rec, n: Option<Rec>)
    ensures Happens(ev, ToEnt(o), n) <==> Occurs(ev, o, n)
  {
    hide HashNames, HasFlag, PackedFlags;
    FlagsPacked(o);
  }

  lemma {:induction false} CountsOnRecords(ev: Event, olds: seq<Rec>, news: seq<Rec>)
    ensures EventCount(ev, Ents(olds), news) == RecordCount(ev, olds, news)
  {
    hide Happens, Occurs, FirstWith, ToEnt;
    if olds != [] {
      var init, o := olds[..|olds| - 1], olds[|olds| - 1];
      CountsOnRecords(ev, init, news);
      OccursIffHappens(ev, o, FirstWith(RecIp, news, o.ip));
      EventCountSnoc(ev, Ents(init), ToEnt(o), news);
      assert ToEnt(o).ip == o.ip by { EntIp(o); }
    }
  }

  lemma EntIp(o: Rec)
    ensures ToEnt(o).ip == o.ip
  {
  }

  // ----- the old records a comparison works on -----

  /**
    One masked record for every masked address of the old pass; all of them if no
    address repeats. Of a repeated address the unstable sort may leave any.
    */
  ghost predicate Chosen(chosen: seq<Rec>, mask: uint16, olds: seq<Rec>) {
    && (forall c | c in chosen :: c in olds && MaskHas(mask, c.status))
    && DistinctKeys(RecIp, chosen)
    && (forall o | o in olds && MaskHas(mask, o.status) :: FirstWith(RecIp, chosen, o.ip).Some?)
    && (DistinctKeys(RecIp, olds) ==> forall o | o in olds && MaskHas(mask, o.status) :: o in chosen)
  }

  lemma {:induction false} TargetIsRecord(mask: uint16, olds: seq<Rec>, e: OldEnt) returns (o: Rec)
    requires e in Targets(mask, olds)
    ensures o in olds && MaskHas(mask, o.status) && e == ToEnt(o)
  {
    hide MaskHas, ToEnt;
    var last := olds[|olds| - 1];
    if MaskHas(mask, last.status) && e == ToEnt(last) {
      o := last;
    } else {
      o := TargetIsRecord(mask, olds[..|olds| - 1], e);
    }
  }

  lemma {:induction false} RecordIsTarget(mask: uint16, olds: seq<Rec>, o: Rec)
    requires o in olds && MaskHas(mask, o.status)
    ensures ToEnt(o) in Targets(mask, olds)
  {
    hide MaskHas, ToEnt;
    if o != olds[|olds| - 1] {
      RecordIsTarget(mask, olds[..|olds| - 1], o);
    }
  }

  lemma {:induction false} RecordsOf(ents: seq<OldEnt>, mask: uint16, olds: seq<Rec>) returns (chosen: seq<Rec>)
    requires forall e | e in ents :: e in Targets(mask, olds)
    ensures Ents(chosen) == ents && forall c | c in chosen :: c in olds && MaskHas(mask, c.status)
  {
    hide MaskHas, ToEnt, Targets;
    chosen := [];
    if ents != [] {
      var n := |ents| - 1;
      var init := RecordsOf(ents[..n], mask, olds);
      var o := TargetIsRecord(mask, olds, ents[n]);
      chosen := init + [o];
      assert ents == ents[..n] + [ents[n]];
    }
  }

  lemma {:induction false} EntsAt(olds: seq<Rec>, i: nat)
    requires i < |olds|
    ensures Ents(olds)[i] == ToEnt(olds[i])
  {
    hide ToEnt;
    if i < |olds| - 1 {
      EntsAt(olds[..|olds| - 1], i);
    }
  }

  lemma SameRecord(olds: seq<Rec>, a: Rec, b: Rec)
    requires DistinctKeys(RecIp, olds) && a in olds && b in olds && a.ip == b.ip
    ensures a == b
  {
    var i :| 0 <= i < |olds| && olds[i] == a;
    var j :| 0 <= j < |olds| && olds[j] == b;
    assert i != j ==> RecIp(olds[i]) != RecIp(olds[j]);
  }

  /** The records behind a table of targets. */
  lemma ChooseRecords(ents: seq<OldEnt>, mask: uint16, olds: seq<Rec>) returns (chosen: seq<Rec>)
    requires DistinctKeys(OldIp, ents) && forall e | e in ents :: e in Targets(mask, olds)
    requires forall ip :: FirstWith(OldIp, ents, ip).Some? <==> FirstWith(OldIp, Targets(mask, olds), ip).Some?
    ensures Ents(chosen) == ents && Chosen(chosen, mask, olds)
  {
    hide MaskHas, ToEnt, Targets, FirstWith;
    chosen := RecordsOf(ents, mask, olds);
    forall i | 0 <= i < |chosen| ensures RecIp(chosen[i]) == OldIp(ents[i]) {
      EntsAt(chosen, i);
      EntIp(chosen[i]);
    }
    assert DistinctKeys(RecIp, chosen);
    forall o | o in olds && MaskHas(mask, o.status) ensures FirstWith(RecIp, chosen, o.ip).Some? {
      RecordIsTarget(mask, olds, o);
      EntIp(o);
      assert FirstWith(OldIp, ents, o.ip).Some?;
      var e := FirstWith(OldIp, ents, o.ip).value;
      var i :| 0 <= i < |ents| && ents[i] == e;
      assert RecIp(chosen[i]) == o.ip;
    }
    if DistinctKeys(RecIp, olds) {
      forall o | o in olds && MaskHas(mask, o.status) ensures o in chosen {
        var c := FirstWith(RecIp, chosen, o.ip).value;
        SameRecord(olds, o, c);
      }
    }
  }
}
