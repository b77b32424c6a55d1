/**
  The in-memory table of a re-crawl shard (`loadNewShard` in
  internal/merge/merge.go): packed entries, a byte arena with 32-bit offsets, a
  stable sort and an in-place deduplication.
  */
module MergeTable {
  import opened Model
  import opened Bits
  import opened Sorting
  import opened MergeSpec

  const ENT_FC_CHECKED := 16
  const ENT_FC_MATCH := 32
  const ENT_USED := 128
  const MAX_UINT32 := 0xffff_ffff

  datatype NewEnt = NewEnt(ip: uint32, sf: byte, nameOff: uint32, nameLen: uint32)

  function EntIp(e: NewEnt): int { e.ip }

  predicate Used(e: NewEnt) {
    HasFlag(e.sf, ENT_USED)
  }

  /** The entry and its arena slice represent record r. */
  ghost predicate Encodes(e: NewEnt, arena: seq<byte>, r: Rec) {
    && e.ip == r.ip
    && e.sf % 16 == r.status
    && HasFlag(e.sf, ENT_FC_CHECKED) == r.fcChecked
    && HasFlag(e.sf, ENT_FC_MATCH) == (r.fcChecked && r.fcMatch)
    && (HasPtrCode(r.status) ==>
          e.nameOff + e.nameLen <= |arena| && arena[e.nameOff..e.nameOff + e.nameLen] == Join(r.ptr))
  }

  /** The table holds, in ascending address order, the first record of every address of `news`. */
  ghost predicate Table(ents: seq<NewEnt>, arena: seq<byte>, news: seq<Rec>) {
    && StrictlySortedBy(EntIp, ents)
    && (forall k | 0 <= k < |ents| :: RepresentsFirst(ents[k], arena, news))
    && (forall r | r in news :: HasEntry(ents, r.ip))
  }

  ghost predicate RepresentsFirst(e: NewEnt, arena: seq<byte>, news: seq<Rec>) {
    var n := FirstWith(RecIp, news, e.ip);
    n.Some? && Encodes(e, arena, n.value)
  }

  ghost predicate HasEntry(ents: seq<NewEnt>, ip: int) {
    exists k | 0 <= k < |ents| :: ents[k].ip == ip
  }

  // ----- building the entries -----

  function Packed(r: Rec): (sf: byte)
    ensures sf < 128
  {
    var s0 := r.status % 16;
    if !r.fcChecked then s0
    else
      var s1 := SetFlag(s0, ENT_FC_CHECKED);
      if r.fcMatch then SetFlag(s1, ENT_FC_MATCH) else s1
  }

  lemma PackedFlags(r: Rec)
    ensures Packed(r) % 16 == r.status
    ensures HasFlag(Packed(r), ENT_FC_CHECKED) == r.fcChecked
    ensures HasFlag(Packed(r), ENT_FC_MATCH) == (r.fcChecked && r.fcMatch)
    ensures !HasFlag(Packed(r), ENT_USED)
  {
  }

  /** How much arena the names of these records take. */
  function ArenaBytes(recs: seq<Rec>): nat {
    if recs == [] then 0
    else
      var r := recs[|recs| - 1];
      ArenaBytes(recs[..|recs| - 1]) + (if HasPtrCode(r.status) then |Join(r.ptr)| else 0)
  }

  lemma {:induction false} ArenaBytesMonotone(recs: seq<Rec>, i: nat)
    requires i <= |recs|
    ensures ArenaBytes(recs[..i]) <= ArenaBytes(recs)
  {
    if i == |recs| {
      assert recs[..i] == recs;
    } else {
      ArenaBytesMonotone(recs[..|recs| - 1], i);
      assert recs[..|recs| - 1][..i] == recs[..i];
    }
  }

  lemma ArenaBytesStep(recs: seq<Rec>, i: nat)
    requires i < |recs|
    ensures ArenaBytes(recs[..i + 1])
         == ArenaBytes(recs[..i]) + (if HasPtrCode(recs[i].status) then |Join(recs[i].ptr)| else 0)
  {
    assert recs[..i + 1][..i] == recs[..i];
  }

  lemma EncodesGrowing(e: NewEnt, arena: seq<byte>, more: seq<byte>, r: Rec)
    requires Encodes(e, arena, r)
    ensures Encodes(e, arena + more, r)
  {
    hide Join, HasFlag;
    if HasPtrCode(r.status) {
      assert (arena + more)[e.nameOff..e.nameOff + e.nameLen] == arena[e.nameOff..e.nameOff + e.nameLen];
    }
  }

  /** The scan callback of `loadNewShard`; it refuses an arena beyond 32-bit offsets. */
  method BuildEntries(recs: seq<Rec>) returns (ok: bool, ents: seq<NewEnt>, arena: seq<byte>)
    ensures ok <==> ArenaBytes(recs) <= MAX_UINT32
    ensures ok ==> |ents| == |recs|
    ensures ok ==> forall j | 0 <= j < |recs| :: Encodes(ents[j], arena, recs[j]) && !Used(ents[j])
  {
    hide ArenaBytes, Join, HasFlag, Packed, Encodes;
    ents, arena := [], [];
    var i := 0;
    assert ArenaBytes(recs[..0]) == 0 by { ArenaBytesEmpty(recs); }
    while i < |recs|
      invariant 0 <= i <= |recs| && |ents| == i
      invariant |arena| == ArenaBytes(recs[..i]) <= MAX_UINT32
      invariant forall j | 0 <= j < i :: Encodes(ents[j], arena, recs[j]) && !Used(ents[j])
    {
      var r := recs[i];
      var e := NewEnt(r.ip, Packed(r), 0, 0);
      ArenaBytesStep(recs, i);
      PackedFlags(r);
      if HasPtrCode(r.status) {
        var joined := Join(r.ptr);
        if |arena| + |joined| > MAX_UINT32 {
          ArenaBytesMonotone(recs, i + 1);
          return false, [], [];
        }
        e := e.(nameOff := |arena|, nameLen := |joined|);
        forall j | 0 <= j < i ensures Encodes(ents[j], arena + joined, recs[j]) {
          EncodesGrowing(ents[j], arena, joined, recs[j]);
        }
        arena := arena + joined;
      }
      NewEntryEncodes(e, arena, r);
      ents := ents + [e];
      i := i + 1;
    }
    assert recs[..|recs|] == recs;
    ok := true;
  }

  lemma ArenaBytesEmpty(recs: seq<Rec>)
    ensures ArenaBytes(recs[..0]) == 0
  {
  }

  lemma NewEntryEncodes(e: NewEnt, arena: seq<byte>, r: Rec)
    requires e.ip == r.ip && e.sf == Packed(r)
    requires HasPtrCode(r.status) ==>
               e.nameLen == |Join(r.ptr)| && e.nameOff + e.nameLen == |arena| && arena[e.nameOff..] == Join(r.ptr)
    ensures Encodes(e, arena, r) && !Used(e)
  {
    hide Join, Packed, HasFlag;
    PackedFlags(r);
    if HasPtrCode(r.status) {
      assert arena[e.nameOff..e.nameOff + e.nameLen] == arena[e.nameOff..];
    }
  }

  // ----- sorting and deduplicating them -----

  /** The in-place compaction loop at the end of `loadNewShard`. */
  method DedupEnts(sorted: seq<NewEnt>) returns (ents: seq<NewEnt>, dups: nat)
    ensures ents == DedupAdjacent(EntIp, sorted)
    ensures dups == |sorted| - |ents|
  {
    hide DedupAdjacent;
    ents := sorted;
    dups := 0;
    DedupNothing(EntIp, sorted);
    var out := 0;
    var i := 0;
    while i < |sorted|
      invariant 0 <= out <= i <= |sorted| == |ents|
      invariant ents[..out] == DedupAdjacent(EntIp, sorted[..i])
      invariant ents[i..] == sorted[i..]
      invariant dups == i - out
    {
      ghost var kept := ents[..out];
      DedupStep(EntIp, sorted, i);
      CompactStep(ents, sorted, kept, i);
      assert out > 0 ==> ents[out - 1] == kept[out - 1];
      if out > 0 && ents[out - 1].ip == ents[i].ip {
        dups := dups + 1;
      } else {
        ents := ents[out := ents[i]];
        out := out + 1;
      }
      i := i + 1;
    }
    assert sorted[..|sorted|] == sorted;
    ents := ents[..out];
  }

  /** Entry and record lists that agree position by position agree on the first of every address. */
  lemma {:induction false} ParallelFirst(recs: seq<Rec>, ents: seq<NewEnt>, arena: seq<byte>, ip: int)
    requires |ents| == |recs|
    requires forall j | 0 <= j < |recs| :: Encodes(ents[j], arena, recs[j]) && !Used(ents[j])
    ensures var e, r := FirstWith(EntIp, ents, ip), FirstWith(RecIp, recs, ip);
            && (e.Some? <==> r.Some?)
            && (e.Some? ==> Encodes(e.value, arena, r.value) && !Used(e.value))
  {
    hide HasFlag, Join;
    if recs != [] {
      ParallelFirst(recs[..|recs| - 1], ents[..|ents| - 1], arena, ip);
    }
  }

  /** Stable sort then keep-first dedup: the first entry of every address survives, whatever the file order. */
  lemma SortDedupKeepsFirst(ents: seq<NewEnt>, sorted: seq<NewEnt>, ip: int)
    requires SortedBy(EntIp, sorted)
    requires forall k :: WithKey(EntIp, sorted, k) == WithKey(EntIp, ents, k)
    ensures FirstWith(EntIp, DedupAdjacent(EntIp, sorted), ip) == FirstWith(EntIp, ents, ip)
  {
    DedupKeepsFirst(EntIp, sorted, ip);
    FirstIsHeadOfWithKey(EntIp, sorted, ip);
    FirstIsHeadOfWithKey(EntIp, ents, ip);
  }

  lemma FirstsMakeTable(recs: seq<Rec>, raw: seq<NewEnt>, arena: seq<byte>, ents: seq<NewEnt>)
    requires |raw| == |recs|
    requires forall j | 0 <= j < |recs| :: Encodes(raw[j], arena, recs[j]) && !Used(raw[j])
    requires StrictlySortedBy(EntIp, ents)
    requires forall ip :: FirstWith(EntIp, ents, ip) == FirstWith(EntIp, raw, ip)
    ensures Table(ents, arena, recs)
    ensures forall k | 0 <= k < |ents| :: !Used(ents[k])
  {
    hide FirstWith, Encodes, Used;
    StrictIsDistinct(EntIp, ents);
    forall k | 0 <= k < |ents| ensures RepresentsFirst(ents[k], arena, recs) && !Used(ents[k]) {
      FirstOfDistinct(EntIp, ents, k);
      ParallelFirst(recs, raw, arena, ents[k].ip);
    }
    forall r | r in recs ensures HasEntry(ents, r.ip) {
      ParallelFirst(recs, raw, arena, r.ip);
      var e := FirstWith(EntIp, ents, r.ip).value;
      var k :| 0 <= k < |ents| && ents[k] == e;
    }
  }

  /** `loadNewShard` on the scanned records. */
  method LoadNewShard(recs: seq<Rec>) returns (ok: bool, ents: seq<NewEnt>, arena: seq<byte>, dups: nat)
    ensures ok <==> ArenaBytes(recs) <= MAX_UINT32
    ensures ok ==> Table(ents, arena, recs) && dups == |recs| - |ents|
    ensures ok ==> forall k | 0 <= k < |ents| :: !Used(ents[k])
  {
    hide FirstWith, Encodes, Used, Table, DedupAdjacent, WithKey;
    dups := 0;
    ok, ents, arena := BuildEntries(recs);
    if !ok {
      return;
    }
    var sorted := StableSort(EntIp, ents);
    ghost var raw := ents;
    ents, dups := DedupEnts(sorted);
    assert |multiset(sorted)| == |multiset(raw)|;
    DedupStrict(EntIp, sorted);
    forall ip ensures FirstWith(EntIp, ents, ip) == FirstWith(EntIp, raw, ip) {
      SortDedupKeepsFirst(raw, sorted, ip);
    }
    FirstsMakeTable(recs, raw, arena, ents);
  }

  // ----- consulting the table -----

  /** The binary search of the merge callback finds exactly the first new record of the address. */
  method FindNew(ents: seq<NewEnt>, ip: uint32, ghost arena: seq<byte>, ghost news: seq<Rec>)
    returns (i: nat, found: bool)
    requires Table(ents, arena, news)
    ensures found <==> FirstWith(RecIp, news, ip).Some?
    ensures found ==> i < |ents| && ents[i].ip == ip && RepresentsFirst(ents[i], arena, news)
  {
    hide FirstWith, Encodes;
    i := Search(EntIp, ents, ip);
    found := i < |ents| && ents[i].ip == ip;
    if FirstWith(RecIp, news, ip).Some? {
      var r := FirstWith(RecIp, news, ip).value;
      assert HasEntry(ents, r.ip);
      var k :| 0 <= k < |ents| && ents[k].ip == ip;
      assert EntIp(ents[k]) == ip;
      assert i <= k;
      assert k == i;
    }
  }

  /** `e.sf |= entUsed` */
  function MarkUsed(ents: seq<NewEnt>, i: nat): seq<NewEnt>
    requires i < |ents|
  {
    ents[i := ents[i].(sf := SetFlag(ents[i].sf, ENT_USED))]
  }

  function CountUsed(ents: seq<NewEnt>): (n: nat)
    ensures n <= |ents|
  {
    if ents == [] then 0 else CountUsed(ents[..|ents| - 1]) + (if Used(ents[|ents| - 1]) then 1 else 0)
  }

  lemma UsedKeepsMeaning(e: NewEnt, arena: seq<byte>, r: Rec)
    requires Encodes(e, arena, r)
    ensures Encodes(e.(sf := SetFlag(e.sf, ENT_USED)), arena, r)
    ensures Used(e.(sf := SetFlag(e.sf, ENT_USED)))
  {
    hide Join;
  }

  lemma MarkUsedKeepsTable(ents: seq<NewEnt>, arena: seq<byte>, news: seq<Rec>, i: nat)
    requires Table(ents, arena, news) && i < |ents|
    ensures Table(MarkUsed(ents, i), arena, news)
  {
    hide FirstWith, Encodes, SetFlag;
    var after := MarkUsed(ents, i);
    UsedKeepsMeaning(ents[i], arena, FirstWith(RecIp, news, ents[i].ip).value);
    forall r | r in news ensures HasEntry(after, r.ip) {
      var k :| 0 <= k < |ents| && ents[k].ip == r.ip;
      assert after[k].ip == r.ip;
    }
  }

  lemma {:induction false} MarkUsedCounts(ents: seq<NewEnt>, i: nat)
    requires i < |ents| && !Used(ents[i])
    ensures CountUsed(MarkUsed(ents, i)) == CountUsed(ents) + 1
  {
    var n := |ents| - 1;
    var after := MarkUsed(ents, i);
    if i < n {
      assert after[..n] == MarkUsed(ents[..n], i);
      MarkUsedCounts(ents[..n], i);
    } else {
      assert after[..n] == ents[..n];
    }
  }

  lemma {:induction false} NoneUsed(ents: seq<NewEnt>)
    requires forall k | 0 <= k < |ents| :: !Used(ents[k])
    ensures CountUsed(ents) == 0
  {
    if ents != [] {
      NoneUsed(ents[..|ents| - 1]);
    }
  }

  /** The final loop of `mergeShard` over entries no baseline record asked for. */
  method CountUnexpected(ents: seq<NewEnt>) returns (n: nat)
    ensures n == |ents| - CountUsed(ents)
  {
    n := 0;
    var i := 0;
    while i < |ents|
      invariant 0 <= i <= |ents|
      invariant n == i - CountUsed(ents[..i])
    {
      assert ents[..i + 1][..i] == ents[..i];
      if !Used(ents[i]) {
        n := n + 1;
      }
      i := i + 1;
    }
    assert ents[..|ents|] == ents;
  }
}
