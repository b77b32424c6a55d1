/**
  `mergeShard` and `Run` of internal/merge/merge.go: the seen-bitmap, the switch
  on old and new status, the counters and the output writer.
  */
module Merge {
  import opened Model
  import opened Bits
  import opened Counting
  import opened Sorting
  import opened Names
  import opened Writer
  import opened MergeSpec
  import opened MergeTable

  // ----- the bitmap over the full IPv4 space -----

  const BITMAP_WORDS := 0x400_0000 // 1 << 26

  predicate SeenBit(words: seq<nat>, ip: uint32)
    requires |words| == BITMAP_WORDS
  {
    Bit(words[ip / 64], ip % 64)
  }

  /** The set bits are exactly the addresses of these records. */
  ghost predicate Marks(words: seq<nat>, recs: seq<Rec>) {
    |words| == BITMAP_WORDS && forall ip: uint32 :: SeenBit(words, ip) <==> FirstWith(RecIp, recs, ip).Some?
  }

  lemma MarksStep(words: seq<nat>, recs: seq<Rec>, r: Rec)
    requires Marks(words, recs)
    ensures Marks(words[r.ip / 64 := WithBit(words[r.ip / 64], r.ip % 64)], recs + [r])
  {
    hide FirstWith, Bit, WithBit;
    var after := words[r.ip / 64 := WithBit(words[r.ip / 64], r.ip % 64)];
    forall ip: uint32 ensures SeenBit(after, ip) <==> FirstWith(RecIp, recs + [r], ip).Some? {
      FirstSnoc(RecIp, recs, r, ip);
      assert SeenBit(words, ip) <==> FirstWith(RecIp, recs, ip).Some?;
      if ip / 64 == r.ip / 64 {
        BitOfWithBit(words[r.ip / 64], r.ip % 64, ip % 64);
      }
    }
  }

  /** A repeated record marks nothing new. */
  lemma MarksRepeat(words: seq<nat>, recs: seq<Rec>, r: Rec)
    requires Marks(words, recs) && FirstWith(RecIp, recs, r.ip).Some?
    ensures Marks(words, recs + [r])
  {
    hide FirstWith, Bit;
    forall ip: uint32 ensures SeenBit(words, ip) <==> FirstWith(RecIp, recs + [r], ip).Some? {
      FirstSnoc(RecIp, recs, r, ip);
    }
  }

  lemma NoMarks(words: seq<nat>)
    requires |words| == BITMAP_WORDS && forall i | 0 <= i < BITMAP_WORDS :: words[i] == 0
    ensures Marks(words, [])
  {
    forall ip: uint32 ensures !SeenBit(words, ip) {
      NoBitInZero(ip % 64);
    }
  }

  // ----- the counters -----

  /** The counters of `Result`, shared by all shard pairs of a run. */
  class Result {
    var gained: nat
    var removedAuth: nat
    var ptrChanged: nat
    var ptrUnchanged: nat
    var graceKept: nat
    var missingKept: nat
    var oldDups: nat
    var newDups: nat
    var unexpectedNew: nat
    var mergedCounts: seq<nat>

    constructor ()
      ensures Snap() == Counters(0, 0, 0, 0, 0, 0, [0, 0, 0, 0, 0, 0, 0, 0])
      ensures oldDups == newDups == unexpectedNew == 0
    {
      gained, removedAuth, ptrChanged, ptrUnchanged, graceKept, missingKept := 0, 0, 0, 0, 0, 0;
      oldDups, newDups, unexpectedNew := 0, 0, 0;
      mergedCounts := [0, 0, 0, 0, 0, 0, 0, 0];
    }

    ghost function Snap(): Counters
      reads this
    {
      Counters(gained, removedAuth, ptrChanged, ptrUnchanged, graceKept, missingKept, mergedCounts)
    }
  }

  /** The values of the counters at one moment. */
  datatype Counters = Counters(gained: nat, removedAuth: nat, ptrChanged: nat, ptrUnchanged: nat,
                               graceKept: nat, missingKept: nat, merged: seq<nat>)
  {
    /** The counter that records a fate; some fates are not counted. */
    function Get(f: Fate): nat {
      match f
      case Gained => gained
      case RemovedAuth => removedAuth
      case Changed => ptrChanged
      case Unchanged => ptrUnchanged
      case GraceKept => graceKept
      case Missing => missingKept
      case _ => 0
    }
  }

  /** One more record of this fate, written with this status code. */
  ghost predicate OneMore(before: Counters, after: Counters, fate: Fate, c: int)
    requires 0 <= c < |before.merged|
  {
    && (forall f | Counted(f) :: after.Get(f) == before.Get(f) + (if fate == f then 1 else 0))
    && after.merged == Bump(before.merged, c)
  }

  predicate Counted(f: Fate) {
    f in {Gained, RemovedAuth, Changed, Unchanged, GraceKept, Missing}
  }

  /** `mergedCounts[c]++` */
  function Bump(counts: seq<nat>, c: int): seq<nat>
    requires 0 <= c < |counts|
  {
    counts[c := counts[c] + 1]
  }

  /** `entRecord` on a packed entry. */
  function EntRecord(ip: uint32, e: NewEnt, names: seq<Name>): Record {
    Record(ip, StatusString(e.sf % 16), names,
           if HasFlag(e.sf, ENT_FC_CHECKED) then Some(HasFlag(e.sf, ENT_FC_MATCH)) else None)
  }

  lemma EntRecordIsFromNew(e: NewEnt, arena: seq<byte>, n: Rec)
    requires Encodes(e, arena, n)
    ensures HasPtrCode(n.status) ==>
              EntRecord(n.ip, e, Split(arena[e.nameOff..e.nameOff + e.nameLen])) == FromNew(n)
    ensures !HasPtrCode(n.status) ==> EntRecord(n.ip, e, []) == FromNew(n)
  {
    hide Join, Split, StatusString;
  }

  // ----- one baseline record -----

  /** `writeOld` and its inlined copies: one record out, one status counted. */
  method Emit(w: Writer, res: Result, rec: Record, c: StatusCode)
    requires w.Valid() && c < |res.mergedCounts|
    modifies w, res`mergedCounts
    ensures w.Valid() && w.created == old(w.created)
    ensures w.Added() == old(w.Added()) + [rec]
    ensures res.mergedCounts == Bump(old(res.mergedCounts), c)
  {
    w.Add(rec);
    res.mergedCounts := Bump(res.mergedCounts, c);
  }

  /** The counters of the has_ptr case. */
  method TallyPtr(o: Rec, names: seq<Name>, res: Result)
    modifies res`gained, res`ptrChanged, res`ptrUnchanged
    ensures forall f | Counted(f) :: res.Snap().Get(f) == old(res.Snap()).Get(f) + (if PtrFate(o, names) == f then 1 else 0)
  {
    hide HashNames;
    if HasPtrCode(o.status) {
      var before := ComputeHash(o.ptr);
      var now := ComputeHash(names);
      if before == now {
        res.ptrUnchanged := res.ptrUnchanged + 1;
      } else {
        res.ptrChanged := res.ptrChanged + 1;
      }
    } else {
      res.gained := res.gained + 1;
    }
  }

  /** The rule for a re-crawled record, case by case. */
  lemma RuleCases(mask: uint16, o: Rec, n: Rec)
    requires MaskHas(mask, o.status)
    ensures var out, fate, c := MergedRecord(mask, o, Some(n)), FateOf(mask, o, Some(n)), CountedCode(mask, o, Some(n));
            if HasPtrCode(n.status) then
              out == FromNew(n) && fate == PtrFate(o, Rejoined(n.ptr)) && c == CODE_HAS_PTR
            else if AuthoritativeNegative(n.status) then
              out == FromNew(n) && fate == (if HasPtrCode(o.status) then RemovedAuth else NewNegative) && c == n.status
            else if HasPtrCode(o.status) then out == ToRecord(o) && fate == GraceKept && c == o.status
            else out == FromNew(n) && fate == StillFailing && c == n.status
  {
    hide MaskHas, PtrFate, FromNew, ToRecord;
  }

  /** The switch of the scan callback for a record that met new entry e. */
  method ApplyNew(o: Rec, mask: uint16, e: NewEnt, arena: seq<byte>, w: Writer, res: Result, ghost n: Rec)
    requires w.Valid() && Encodes(e, arena, n) && n.ip == o.ip
    requires MaskHas(mask, o.status) && Countable(mask, o, Some(n))
    requires |res.mergedCounts| == NUM_STATUS_CODES
    modifies w, res
    ensures w.Valid() && w.created == old(w.created)
    ensures w.Added() == old(w.Added()) + [MergedRecord(mask, o, Some(n))]
    ensures OneMore(old(res.Snap()), res.Snap(), FateOf(mask, o, Some(n)), Code(MergedRecord(mask, o, Some(n)).status))
    ensures res.oldDups == old(res.oldDups) && res.newDups == old(res.newDups)
    ensures res.unexpectedNew == old(res.unexpectedNew)
  {
    hide Join, Split, PtrFate, MaskHas, Writer.Valid, Writer.Added, HasFlag, EntRecord, StatusString, Code,
         MergedRecord, FateOf, CountedCode, FromNew, ToRecord;
    EntRecordIsFromNew(e, arena, n);
    RuleCases(mask, o, n);
    StoredAsCounted(mask, o, Some(n));
    var newStatus: StatusCode := e.sf % 16;
    if HasPtrCode(newStatus) {
      var names := Split(arena[e.nameOff..e.nameOff + e.nameLen]);
      TallyPtr(o, names, res);
      Emit(w, res, EntRecord(o.ip, e, names), CODE_HAS_PTR);
    } else if newStatus == CODE_NXDOMAIN || newStatus == CODE_NOERROR_EMPTY {
      if HasPtrCode(o.status) {
        res.removedAuth := res.removedAuth + 1;
      }
      Emit(w, res, EntRecord(o.ip, e, []), newStatus);
    } else if HasPtrCode(o.status) {
      res.graceKept := res.graceKept + 1;
      Emit(w, res, ToRecord(o), o.status);
    } else {
      Emit(w, res, EntRecord(o.ip, e, []), newStatus);
    }
  }

  /** The scan callback for the first baseline record of an address. */
  method MergeOne(o: Rec, mask: uint16, ents: seq<NewEnt>, arena: seq<byte>, w: Writer, res: Result, ghost news: seq<Rec>)
    returns (ents': seq<NewEnt>)
    requires Table(ents, arena, news) && w.Valid()
    requires Countable(mask, o, FirstWith(RecIp, news, o.ip))
    requires |res.mergedCounts| == NUM_STATUS_CODES
    requires forall k | 0 <= k < |ents| && ents[k].ip == o.ip :: !Used(ents[k])
    modifies w, res
    ensures w.Valid() && w.created == old(w.created)
    ensures w.Added() == old(w.Added()) + [MergedRecord(mask, o, FirstWith(RecIp, news, o.ip))]
    ensures var n := FirstWith(RecIp, news, o.ip);
            OneMore(old(res.Snap()), res.Snap(), FateOf(mask, o, n), Code(MergedRecord(mask, o, n).status))
    ensures res.oldDups == old(res.oldDups) && res.newDups == old(res.newDups)
    ensures res.unexpectedNew == old(res.unexpectedNew)
    ensures Table(ents', arena, news) && |ents'| == |ents|
    ensures forall k | 0 <= k < |ents| :: ents'[k].ip == ents[k].ip && (ents[k].ip != o.ip ==> ents'[k] == ents[k])
    ensures CountUsed(ents')
         == CountUsed(ents) + (if MaskHas(mask, o.status) && FirstWith(RecIp, news, o.ip).Some? then 1 else 0)
  {
    hide FirstWith, HashNames, MaskHas, Writer.Valid, Writer.Added, Encodes, Used, CountUsed, Rejoined, Table, SetFlag,
         StatusString, Code;
    ents' := ents;
    StoredAsCounted(mask, o, FirstWith(RecIp, news, o.ip));
    if !MaskHas(mask, o.status) {
      Emit(w, res, ToRecord(o), o.status);
      return;
    }
    var i, found := FindNew(ents, o.ip, arena, news);
    if !found {
      res.missingKept := res.missingKept + 1;
      Emit(w, res, ToRecord(o), o.status);
      return;
    }
    ghost var n := FirstWith(RecIp, news, o.ip).value;
    MarkUsedKeepsTable(ents, arena, news, i);
    MarkUsedCounts(ents, i);
    UsedKeepsMeaning(ents[i], arena, n);
    ents' := MarkUsed(ents, i);
    assert forall k | 0 <= k < |ents| && ents[k].ip != o.ip :: k != i;
    ApplyNew(o, mask, ents'[i], arena, w, res, n);
  }

  // ----- one shard -----

  /** The counters after a shard's baseline records: what they were, plus the fates and the output histogram. */
  ghost predicate Accounted(before: Counters, after: Counters, mask: uint16, firsts: seq<Rec>, news: seq<Rec>) {
    && (forall f | Counted(f) :: after.Get(f) == before.Get(f) + FateCount(f, mask, firsts, news))
    && |after.merged| == |before.merged| == NUM_STATUS_CODES
    && (forall c | 0 <= c < NUM_STATUS_CODES ::
          after.merged[c] == before.merged[c] + CountKey(RecordCode, MergeAll(mask, firsts, news), c))
  }

  lemma AccountedNothing(c: Counters, mask: uint16, news: seq<Rec>)
    requires |c.merged| == NUM_STATUS_CODES
    ensures Accounted(c, c, mask, [], news)
  {
  }

  lemma AccountedStep(before: Counters, mid: Counters, after: Counters,
                      mask: uint16, firsts: seq<Rec>, o: Rec, news: seq<Rec>)
    requires Accounted(before, mid, mask, firsts, news)
    requires var n := FirstWith(RecIp, news, o.ip);
             OneMore(mid, after, FateOf(mask, o, n), Code(MergedRecord(mask, o, n).status))
    ensures Accounted(before, after, mask, firsts + [o], news)
    ensures |after.merged| == NUM_STATUS_CODES
  {
    hide FateOf, MergedRecord, MergeAll, FateCount, CountKey, FirstWith, Counters.Get, Code;
    var out := MergedRecord(mask, o, FirstWith(RecIp, news, o.ip));
    forall f: Fate
      ensures FateCount(f, mask, firsts + [o], news)
           == FateCount(f, mask, firsts, news) + (if FateOf(mask, o, FirstWith(RecIp, news, o.ip)) == f then 1 else 0)
    {
      FateCountSnoc(f, mask, firsts, o, news);
    }
    MergeAllSnoc(mask, firsts, o, news);
    forall c: int
      ensures CountKey(RecordCode, MergeAll(mask, firsts + [o], news), c)
           == CountKey(RecordCode, MergeAll(mask, firsts, news), c) + (if Code(out.status) == c then 1 else 0)
    {
      CountKeySnoc(RecordCode, MergeAll(mask, firsts, news), out, c);
    }
  }

  /** Only entries whose address has been met carry the used bit. */
  ghost predicate UsedSeen(ents: seq<NewEnt>, recs: seq<Rec>) {
    forall k | 0 <= k < |ents| && Used(ents[k]) :: FirstWith(RecIp, recs, ents[k].ip).Some?
  }

  lemma UsedStaySeen(ents: seq<NewEnt>, recs: seq<Rec>, r: Rec)
    requires UsedSeen(ents, recs)
    ensures UsedSeen(ents, recs + [r])
    ensures FirstWith(RecIp, recs + [r], r.ip).Some?
    ensures FirstWith(RecIp, recs, r.ip).None? ==> forall k | 0 <= k < |ents| && ents[k].ip == r.ip :: !Used(ents[k])
  {
    hide FirstWith, Used;
    FirstSnoc(RecIp, recs, r, r.ip);
    forall k | 0 <= k < |ents| && Used(ents[k]) ensures FirstWith(RecIp, recs + [r], ents[k].ip).Some? {
      FirstSnoc(RecIp, recs, r, ents[k].ip);
    }
  }

  /** `seen[ip>>6]&(1<<(ip&63)) != 0`, then set that bit: has this address been met before? */
  method TestAndSet(seen: array<nat>, ghost recs: seq<Rec>, r: Rec) returns (dup: bool)
    requires Marks(seen[..], recs)
    modifies seen
    ensures dup <==> FirstWith(RecIp, recs, r.ip).Some?
    ensures Marks(seen[..], recs + [r])
  {
    hide FirstWith, Bit, WithBit, Marks;
    MarksAt(seen[..], recs, r.ip);
    var word, bit := r.ip / 64, r.ip % 64;
    dup := Bit(seen[word], bit);
    if dup {
      MarksRepeat(seen[..], recs, r);
    } else {
      MarksStep(seen[..], recs, r);
      ghost var words := seen[..];
      seen[word] := WithBit(seen[word], bit);
      assert seen[..] == words[word := WithBit(words[word], bit)];
    }
  }

  /** The scan of the baseline against the table. */
  method MergeRecords(olds: seq<Rec>, mask: uint16, ents0: seq<NewEnt>, arena: seq<byte>, seen: array<nat>,
                      w: Writer, res: Result, ghost news: seq<Rec>)
    requires seen.Length == BITMAP_WORDS && w.Valid() && |res.mergedCounts| == NUM_STATUS_CODES
    requires Table(ents0, arena, news) && forall k | 0 <= k < |ents0| :: !Used(ents0[k])
    requires AllCountable(mask, olds, news)
    modifies seen, w, res
    ensures w.Valid() && w.created == old(w.created)
    ensures w.Added() == old(w.Added()) + MergeAll(mask, Firsts(olds), news)
    ensures Accounted(old(res.Snap()), res.Snap(), mask, Firsts(olds), news)
    ensures res.oldDups == old(res.oldDups) + |olds| - |Firsts(olds)|
    ensures res.newDups == old(res.newDups)
    ensures res.unexpectedNew == old(res.unexpectedNew) + |ents0| - MatchedCount(mask, Firsts(olds), news)
  {
    hide FirstWith, Writer.Valid, Writer.Added, Table, Used, CountUsed, MergeAll, FateCount, CountKey, MatchedCount,
         Firsts, FateOf, MergedRecord, MaskHas, Bit, WithBit, Marks, Code, Accounted, OneMore, Counters.Get,
         AllCountable, Countable;
    forall i | 0 <= i < seen.Length {
      seen[i] := 0;
    }
    NoMarks(seen[..]);
    var ents := ents0;
    NoneUsed(ents);
    var i := 0;
    NothingMerged(mask, news);
    AccountedNothing(res.Snap(), mask, news);
    assert olds[..0] == [];
    assert w.Added() + [] == w.Added();
    while i < |olds|
      invariant 0 <= i <= |olds| && |ents| == |ents0|
      invariant w.Valid() && w.created == old(w.created)
      invariant w.Added() == old(w.Added()) + MergeAll(mask, Firsts(olds[..i]), news)
      invariant Accounted(old(res.Snap()), res.Snap(), mask, Firsts(olds[..i]), news)
      invariant |res.mergedCounts| == NUM_STATUS_CODES
      invariant |Firsts(olds[..i])| <= i
      invariant res.oldDups == old(res.oldDups) + i - |Firsts(olds[..i])|
      invariant res.newDups == old(res.newDups) && res.unexpectedNew == old(res.unexpectedNew)
      invariant Marks(seen[..], olds[..i])
      invariant Table(ents, arena, news)
      invariant UsedSeen(ents, olds[..i])
      invariant CountUsed(ents) == MatchedCount(mask, Firsts(olds[..i]), news)
    {
      var o := olds[i];
      ghost var firsts := Firsts(olds[..i]);
      assert olds[..i + 1] == olds[..i] + [o];
      FirstsStep(olds, i);
      UsedStaySeen(ents, olds[..i], o);
      var dup := TestAndSet(seen, olds[..i], o);
      if dup {
        res.oldDups := res.oldDups + 1;
      } else {
        ghost var mid := res.Snap();
        FirstIsCountable(mask, olds, news, i);
        ents := MergeOne(o, mask, ents, arena, w, res, news);
        AccountedStep(old(res.Snap()), mid, res.Snap(), mask, firsts, o, news);
        MergeAllSnoc(mask, firsts, o, news);
        MatchedCountSnoc(mask, firsts, o, news);
        assert w.Added() == old(w.Added()) + MergeAll(mask, firsts + [o], news);
      }
      i := i + 1;
    }
    assert olds[..|olds|] == olds;
    var unexpected := CountUnexpected(ents);
    res.unexpectedNew := res.unexpectedNew + unexpected;
  }

  /** The first baseline record of an address is the one the histogram counts. */
  lemma FirstIsCountable(mask: uint16, olds: seq<Rec>, news: seq<Rec>, i: nat)
    requires AllCountable(mask, olds, news) && i < |olds| && FirstWith(RecIp, olds[..i], olds[i].ip).None?
    ensures Countable(mask, olds[i], FirstWith(RecIp, news, olds[i].ip))
  {
    hide FirstWith, Countable;
    assert olds[..i + 1] == olds[..i] + [olds[i]];
    FirstSnoc(RecIp, olds[..i], olds[i], olds[i].ip);
    FirstOfPrefix(RecIp, olds, i + 1, olds[i].ip);
  }

  lemma NothingMerged(mask: uint16, news: seq<Rec>)
    ensures Firsts([]) == [] && MergeAll(mask, [], news) == [] && MatchedCount(mask, [], news) == 0
  {
  }

  lemma MarksAt(words: seq<nat>, recs: seq<Rec>, ip: uint32)
    requires Marks(words, recs)
    ensures |words| == BITMAP_WORDS
    ensures Bit(words[ip / 64], ip % 64) <==> FirstWith(RecIp, recs, ip).Some?
  {
    hide FirstWith, Bit;
    assert SeenBit(words, ip) <==> FirstWith(RecIp, recs, ip).Some?;
  }
}
