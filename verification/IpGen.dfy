/**
  Address generation and sharding (internal/ipgen/ipgen.go) and the crawl cursor
  arithmetic of cmd/rdns-crawler/main.go.
  */
module IpGen {
  import opened Model

  datatype Range = Range(start: uint32, end: uint32)

  const RESERVED: seq<Range> := [
    Range(0, 16777215),
    Range(167772160, 184549375),
    Range(1681915904, 1686110207),
    Range(2130706432, 2147483647),
    Range(2851995648, 2852061183),
    Range(2886729728, 2887778303),
    Range(3221225472, 3221225727),
    Range(3221225984, 3221226239),
    Range(3227017984, 3227018239),
    Range(3232235520, 3232301055),
    Range(3323068416, 3323199487),
    Range(3325256704, 3325256959),
    Range(3405803776, 3405804031),
    Range(3758096384, 4026531839),
    Range(4026531840, 4294967295)
  ]

  predicate Covers(r: Range, v: int) {
    r.start <= v <= r.end
  }

  /** v lies in one of these blocks. */
  predicate InSome(ranges: seq<Range>, v: int) {
    exists i | 0 <= i < |ranges| :: Covers(ranges[i], v)
  }

  predicate Reserved(v: int) {
    InSome(RESERVED, v)
  }

  /** The special-purpose blocks by octets: 0/8, 10/8, 100.64/10, 127/8, 169.254/16, 172.16/12 and so on. */
  predicate SpecialPurpose(a: byte, b: byte, c: byte) {
    || a == 0 || a == 10 || a == 127 || a >= 224
    || (a == 100 && 64 <= b < 128) || (a == 169 && b == 254) || (a == 172 && 16 <= b < 32)
    || (a == 192 && b == 0 && c == 0) || (a == 192 && b == 0 && c == 2)
    || (a == 192 && b == 88 && c == 99) || (a == 192 && b == 168)
    || (a == 198 && 18 <= b < 20) || (a == 198 && b == 51 && c == 100)
    || (a == 203 && b == 0 && c == 113)
  }

  lemma InTable(v: int)
    ensures Reserved(v) <==>
              || (0 <= v <= 16777215)
              || (167772160 <= v <= 184549375)
              || (1681915904 <= v <= 1686110207)
              || (2130706432 <= v <= 2147483647)
              || (2851995648 <= v <= 2852061183)
              || (2886729728 <= v <= 2887778303)
              || (3221225472 <= v <= 3221225727)
              || (3221225984 <= v <= 3221226239)
              || (3227017984 <= v <= 3227018239)
              || (3232235520 <= v <= 3232301055)
              || (3323068416 <= v <= 3323199487)
              || (3325256704 <= v <= 3325256959)
              || (3405803776 <= v <= 3405804031)
              || (3758096384 <= v <= 4026531839)
              || (4026531840 <= v <= 4294967295)
  {
    assert Covers(RESERVED[0], v) <==> 0 <= v <= 16777215;
    assert Covers(RESERVED[1], v) <==> 167772160 <= v <= 184549375;
    assert Covers(RESERVED[2], v) <==> 1681915904 <= v <= 1686110207;
    assert Covers(RESERVED[3], v) <==> 2130706432 <= v <= 2147483647;
    assert Covers(RESERVED[4], v) <==> 2851995648 <= v <= 2852061183;
    assert Covers(RESERVED[5], v) <==> 2886729728 <= v <= 2887778303;
    assert Covers(RESERVED[6], v) <==> 3221225472 <= v <= 3221225727;
    assert Covers(RESERVED[7], v) <==> 3221225984 <= v <= 3221226239;
    assert Covers(RESERVED[8], v) <==> 3227017984 <= v <= 3227018239;
    assert Covers(RESERVED[9], v) <==> 3232235520 <= v <= 3232301055;
    assert Covers(RESERVED[10], v) <==> 3323068416 <= v <= 3323199487;
    assert Covers(RESERVED[11], v) <==> 3325256704 <= v <= 3325256959;
    assert Covers(RESERVED[12], v) <==> 3405803776 <= v <= 3405804031;
    assert Covers(RESERVED[13], v) <==> 3758096384 <= v <= 4026531839;
    assert Covers(RESERVED[14], v) <==> 4026531840 <= v <= 4294967295;
  }

  /** The table is exactly those blocks. */
  lemma ReservedByOctets(a: byte, b: byte, c: byte, d: byte)
    ensures var x: int, y: int, z: int := a, b, c;
            Reserved(((x * 256 + y) * 256 + z) * 256 + d) <==> SpecialPurpose(a, b, c)
  {
    hide Reserved;
    var x: int, y: int, z: int := a, b, c;
    InTable(((x * 256 + y) * 256 + z) * 256 + d);
  }

  /** `IsReserved`: the loop over the table. */
  method IsReserved(v: uint32) returns (r: bool)
    ensures r == Reserved(v)
  {
    var i := 0;
    while i < |RESERVED|
      invariant 0 <= i <= |RESERVED|
      invariant forall j | 0 <= j < i :: !Covers(RESERVED[j], v)
    {
      if v >= RESERVED[i].start && v <= RESERVED[i].end {
        assert Covers(RESERVED[i], v);
        return true;
      }
      i := i + 1;
    }
    return false;
  }

  /** The blocks are proper, ascending and disjoint. */
  ghost predicate Ascending(ranges: seq<Range>) {
    && (forall i | 0 <= i < |ranges| :: ranges[i].start <= ranges[i].end)
    && (forall i, j | 0 <= i < j < |ranges| :: ranges[i].end < ranges[j].start)
  }

  lemma {:induction false} AdjacentAscending(ranges: seq<Range>)
    requires forall i | 0 <= i < |ranges| :: ranges[i].start <= ranges[i].end
    requires forall i | 0 < i < |ranges| :: ranges[i - 1].end < ranges[i].start
    ensures Ascending(ranges)
  {
    if ranges != [] {
      AdjacentAscending(ranges[..|ranges| - 1]);
      var n := |ranges| - 1;
      forall i | 0 <= i < n ensures ranges[i].end < ranges[n].start {
        if i < n - 1 {
          assert ranges[..n][i].end < ranges[..n][n - 1].start;
        }
      }
    }
  }

  lemma TableAscending()
    ensures Ascending(RESERVED)
  {
    AdjacentAscending(RESERVED);
  }

  /** Both extremes of the space are reserved, so address + 1 never wraps and 0 is never emitted. */
  lemma ExtremesReserved(v: uint32)
    requires !Reserved(v)
    ensures 16777216 <= v <= 3758096383
  {
    assert !Covers(RESERVED[0], v);
    assert !Covers(RESERVED[13], v) && !Covers(RESERVED[14], v);
  }

  // ----- counting the routable space -----

  predicate Within(v: int, lo: int, hi: int) {
    lo <= v < hi
  }

  ghost function Interval(lo: int, hi: int): set<int> {
    set v | lo <= v < hi && Within(v, lo, hi)
  }

  lemma {:induction false} IntervalSize(lo: int, hi: int)
    requires lo <= hi
    ensures |Interval(lo, hi)| == hi - lo
    decreases hi - lo
  {
    if lo < hi {
      IntervalSize(lo, hi - 1);
      assert Interval(lo, hi) == Interval(lo, hi - 1) + {hi - 1};
    }
  }

  ghost function Covered(ranges: seq<Range>): set<int> {
    set v | 0 <= v < U32 && InSome(ranges, v)
  }

  function SumSizes(ranges: seq<Range>): int {
    if ranges == [] then 0
    else SumSizes(ranges[..|ranges| - 1]) + (ranges[|ranges| - 1].end - ranges[|ranges| - 1].start + 1)
  }

  lemma InSomeSnoc(ranges: seq<Range>, v: int)
    requires ranges != []
    ensures InSome(ranges, v) <==> InSome(ranges[..|ranges| - 1], v) || Covers(ranges[|ranges| - 1], v)
  {
    var n := |ranges| - 1;
    if InSome(ranges[..n], v) {
      var i :| 0 <= i < n && Covers(ranges[..n][i], v);
      assert Covers(ranges[i], v);
    }
    if InSome(ranges, v) && !Covers(ranges[n], v) {
      var i :| 0 <= i < |ranges| && Covers(ranges[i], v);
      assert Covers(ranges[..n][i], v);
    }
  }

  lemma {:induction false} CoveredSize(ranges: seq<Range>)
    requires Ascending(ranges)
    ensures |Covered(ranges)| == SumSizes(ranges)
  {
    hide InSome;
    if ranges == [] {
      forall v ensures !InSome([], v) {
        NoRanges(v);
      }
      assert Covered(ranges) == {};
    } else {
      var n := |ranges| - 1;
      var init, last := ranges[..n], ranges[n];
      CoveredSize(init);
      IntervalSize(last.start, last.end + 1);
      forall v ensures InSome(ranges, v) <==> InSome(init, v) || Covers(last, v) {
        InSomeSnoc(ranges, v);
      }
      forall v | InSome(init, v) ensures v < last.start {
        InSomeBelow(ranges, v);
      }
      assert Covered(ranges) == Covered(init) + Interval(last.start, last.end + 1);
    }
  }

  lemma NoRanges(v: int)
    ensures !InSome([], v)
  {
  }

  lemma InSomeBelow(ranges: seq<Range>, v: int)
    requires Ascending(ranges) && ranges != [] && InSome(ranges[..|ranges| - 1], v)
    ensures v < ranges[|ranges| - 1].start
  {
    var n := |ranges| - 1;
    var i :| 0 <= i < n && Covers(ranges[..n][i], v);
    assert ranges[i].end < ranges[n].start;
  }

  ghost function Routable(): set<int> {
    set v | 0 <= v < U32 && !Reserved(v)
  }

  lemma SumSizesStep(ranges: seq<Range>, i: nat)
    requires i < |ranges|
    ensures SumSizes(ranges[..i + 1]) == SumSizes(ranges[..i]) + (ranges[i].end - ranges[i].start + 1)
  {
    assert ranges[..i + 1][..i] == ranges[..i];
  }

  /** The special-purpose blocks cover 592,708,864 addresses. */
  lemma TableSize()
    ensures SumSizes(RESERVED) == 592708864
  {
    hide SumSizes;
    assert SumSizes(RESERVED[..0]) == 0 by { NoSizes(); }
    SumSizesStep(RESERVED, 0); SumSizesStep(RESERVED, 1); SumSizesStep(RESERVED, 2);
    SumSizesStep(RESERVED, 3); SumSizesStep(RESERVED, 4); SumSizesStep(RESERVED, 5);
    SumSizesStep(RESERVED, 6); SumSizesStep(RESERVED, 7); SumSizesStep(RESERVED, 8);
    SumSizesStep(RESERVED, 9); SumSizesStep(RESERVED, 10); SumSizesStep(RESERVED, 11);
    SumSizesStep(RESERVED, 12); SumSizesStep(RESERVED, 13); SumSizesStep(RESERVED, 14);
    assert RESERVED[..15] == RESERVED;
  }

  lemma NoSizes()
    ensures SumSizes(RESERVED[..0]) == 0
  {
  }

  /** `TotalRoutableIPv4` is the cardinality of the non-reserved set: about 3.7 billion. */
  method TotalRoutableIPv4() returns (n: int)
    ensures n == |Routable()|
    ensures n == 3702258432
  {
    hide InSome;
    var reserved := 0;
    var i := 0;
    while i < |RESERVED|
      invariant 0 <= i <= |RESERVED| && reserved == SumSizes(RESERVED[..i])
    {
      assert RESERVED[..i + 1][..i] == RESERVED[..i];
      reserved := reserved + (RESERVED[i].end - RESERVED[i].start + 1);
      i := i + 1;
    }
    assert RESERVED[..|RESERVED|] == RESERVED;
    n := U32 - reserved;
    TableSize();
    TableAscending();
    CoveredSize(RESERVED);
    IntervalSize(0, U32);
    assert Routable() == Interval(0, U32) - Covered(RESERVED);
    assert Covered(RESERVED) <= Interval(0, U32);
  }

  // ----- sharding and sampling -----

  datatype ShardConfig = ShardConfig(shards: uint32, shardId: uint32, startIp: uint32, limit: nat, threshold: uint32)

  /** splitmix64 */
  function Mix64(x: bv64): bv64 {
    var x1 := x + 0x9e3779b97f4a7c15;
    var x2 := (x1 ^ (x1 >> 30)) * 0xbf58476d1ce4e5b9;
    var x3 := (x2 ^ (x2 >> 27)) * 0x94d049bb133111eb;
    x3 ^ (x3 >> 31)
  }

  /** The first output of splitmix64 from seed 0, as published with the generator. */
  lemma Mix64Reference()
    ensures Mix64(0) == 0xe220a8397b1dcdaf
  {
  }

  function LowHalf(h: bv64): nat {
    (h & 0xffff_ffff) as nat
  }

  function HighHalf(h: bv64): nat {
    (h >> 32) as nat
  }

  /** The low half of the hash decides the sample, the high half the shard. */
  function LowHash(ip: uint32): nat {
    LowHalf(Mix64(ip as bv64))
  }

  function HighHash(ip: uint32): nat {
    HighHalf(Mix64(ip as bv64))
  }

  /** `inShardSample` */
  predicate InShardSample(ip: uint32, shards: uint32, shardId: uint32, threshold: uint32)
    requires shards >= 1
  {
    if threshold != 0 then
      if LowHash(ip) >= threshold then false
      else HighHash(ip) % shards == shardId
    else ip % shards == shardId
  }

  lemma SplitWord(hi: bv64, lo: bv64)
    requires hi <= 0xffff_ffff && lo <= 0xffff_ffff
    ensures ((hi << 32) | lo) & 0xffff_ffff == lo && ((hi << 32) | lo) >> 32 == hi
  {
  }

  /** The halves of a word put together from two 32-bit numbers are those numbers. */
  lemma HalvesOfWord(hi: bv64, lo: bv64)
    requires hi <= 0xffff_ffff && lo <= 0xffff_ffff
    ensures LowHalf((hi << 32) | lo) == lo as nat && HighHalf((hi << 32) | lo) == hi as nat
  {
    SplitWord(hi, lo);
  }

  /** With sampling, the low half of the hash decides the sample and the high half the shard. */
  lemma SampleByHash(ip: uint32, shards: uint32, id: uint32, threshold: uint32)
    requires shards >= 1 && threshold != 0
    ensures InShardSample(ip, shards, id, threshold) <==>
              LowHalf(Mix64(ip as bv64)) < threshold && HighHalf(Mix64(ip as bv64)) % shards == id
  {
    hide Mix64, LowHalf, HighHalf;
  }

  predicate Sampled(ip: uint32, threshold: uint32) {
    threshold == 0 || LowHash(ip) < threshold
  }

  function ShardOf(ip: uint32, shards: uint32, threshold: uint32): (s: uint32)
    requires shards >= 1
    ensures s < shards
  {
    if threshold != 0 then HighHash(ip) % shards else ip % shards
  }

  /**
    Shards partition the work: a sampled address belongs to exactly one shard, any
    other to none, and whether it is sampled does not depend on the shard count.
    */
  lemma ShardsPartition(ip: uint32, shards: uint32, threshold: uint32)
    requires shards >= 1
    ensures forall id: uint32 ::
              InShardSample(ip, shards, id, threshold) <==> Sampled(ip, threshold) && id == ShardOf(ip, shards, threshold)
    ensures (exists id: uint32 | id < shards :: InShardSample(ip, shards, id, threshold)) <==> Sampled(ip, threshold)
  {
    hide LowHash, HighHash;
    var s := ShardOf(ip, shards, threshold);
    assert Sampled(ip, threshold) ==> InShardSample(ip, shards, s, threshold);
  }

  ghost function ShardSet(shards: uint32, id: uint32, threshold: uint32): set<int>
    requires shards >= 1
  {
    set v | 0 <= v < U32 && !Reserved(v) && InShardSample(v, shards, id, threshold)
  }

  ghost function SampleSet(threshold: uint32): set<int> {
    set v | 0 <= v < U32 && !Reserved(v) && Sampled(v, threshold)
  }

  /**
    A larger non-zero threshold only adds addresses to the sample, up to the whole
    routable space; and whatever shard of whatever layout visited an address
    before, exactly one shard of any other layout visits it in the larger sample.
    */
  lemma SampleGrows(t1: uint32, t2: uint32)
    requires 0 < t1 <= t2
    ensures SampleSet(t1) <= SampleSet(t2) <= SampleSet(0) == Routable()
    ensures forall a: uint32, b: uint32, i: uint32, v: uint32 | a >= 1 && b >= 1 && v in ShardSet(a, i, t1) ::
              forall j: uint32 :: v in ShardSet(b, j, t2) <==> j == ShardOf(v, b, t2)
  {
    hide LowHash, HighHash, Reserved, ShardOf, InShardSample;
    forall a: uint32, b: uint32, i: uint32, v: uint32 | a >= 1 && b >= 1 && v in ShardSet(a, i, t1)
      ensures forall j: uint32 :: v in ShardSet(b, j, t2) <==> j == ShardOf(v, b, t2)
    {
      ShardsPartition(v, a, t1);
      ShardsPartition(v, b, t2);
    }
  }

  /** The addresses of shards 0..k. */
  ghost function FirstShards(shards: uint32, k: nat, threshold: uint32): set<int>
    requires shards >= 1
  {
    set v | 0 <= v < U32 && !Reserved(v) && Sampled(v, threshold) && ShardOf(v, shards, threshold) < k
  }

  ghost function ShardSizes(shards: uint32, k: nat, threshold: uint32): int
    requires shards >= 1 && k <= shards
  {
    if k == 0 then 0 else ShardSizes(shards, k - 1, threshold) + |ShardSet(shards, k - 1, threshold)|
  }

  lemma {:induction false} FirstShardsSize(shards: uint32, k: nat, threshold: uint32)
    requires shards >= 1 && k <= shards
    ensures |FirstShards(shards, k, threshold)| == ShardSizes(shards, k, threshold)
  {
    hide LowHash, HighHash, Reserved, InShardSample, ShardOf, Sampled;
    if k == 0 {
      assert FirstShards(shards, 0, threshold) == {};
    } else {
      FirstShardsSize(shards, k - 1, threshold);
      forall v: uint32
        ensures InShardSample(v, shards, k - 1, threshold)
           <==> Sampled(v, threshold) && k - 1 == ShardOf(v, shards, threshold)
      {
        ShardsPartition(v, shards, threshold);
      }
      var a, b := FirstShards(shards, k - 1, threshold), ShardSet(shards, k - 1, threshold);
      assert FirstShards(shards, k, threshold) == a + b;
      assert a !! b;
    }
  }

  /** The shard sizes add up to the sample, and without sampling to the whole routable space. */
  lemma ShardSizesAddUp(shards: uint32, threshold: uint32)
    requires shards >= 1
    ensures ShardSizes(shards, shards, threshold) == |SampleSet(threshold)|
    ensures threshold == 0 ==> ShardSizes(shards, shards, threshold) == |Routable()|
  {
    hide LowHash, HighHash, Reserved;
    FirstShardsSize(shards, shards, threshold);
    assert FirstShards(shards, shards, threshold) == SampleSet(threshold);
    if threshold == 0 {
      assert SampleSet(threshold) == Routable();
    }
  }

  // ----- the walk -----

  predicate Emits(v: int, cfg: ShardConfig)
    requires cfg.shards >= 1
  {
    0 <= v < U32 && !Reserved(v) && InShardSample(v, cfg.shards, cfg.shardId, cfg.threshold)
  }

  /** The routable in-shard addresses from v on, in ascending order. */
  function Addresses(v: nat, cfg: ShardConfig): seq<uint32>
    requires cfg.shards >= 1
    decreases U32 - v
  {
    hide Emits;
    if v >= U32 then []
    else if Emits(v, cfg) then [v] + Addresses(v + 1, cfg)
    else Addresses(v + 1, cfg)
  }

  /** It is exactly that list: strictly ascending, with exactly those members. */
  lemma {:induction false} AddressesExact(v: nat, cfg: ShardConfig)
    requires cfg.shards >= 1
    ensures forall i, j | 0 <= i < j < |Addresses(v, cfg)| :: Addresses(v, cfg)[i] < Addresses(v, cfg)[j]
    ensures forall x :: x in Addresses(v, cfg) <==> v <= x && Emits(x, cfg)
    decreases U32 - v
  {
    hide Emits;
    if v < U32 {
      AddressesExact(v + 1, cfg);
      var rest := Addresses(v + 1, cfg);
      forall i | 0 <= i < |rest| ensures v < rest[i] {
        assert rest[i] in rest;
      }
      EmitsInSpace(cfg);
    } else {
      EmitsInSpace(cfg);
    }
  }

  lemma EmitsInSpace(cfg: ShardConfig)
    requires cfg.shards >= 1
    ensures forall x | Emits(x, cfg) :: 0 <= x < U32 && !Reserved(x)
  {
    hide InSome;
  }

  /** Jumping over addresses that are not emitted loses nothing. */
  lemma {:induction false} Jump(v: nat, w: nat, cfg: ShardConfig)
    requires cfg.shards >= 1 && v <= w
    requires forall x | v <= x < w :: !Emits(x, cfg)
    ensures Addresses(v, cfg) == Addresses(w, cfg)
    decreases w - v
  {
    hide Emits;
    if v < w {
      if v < U32 {
        assert !Emits(v, cfg);
      }
      Jump(v + 1, w, cfg);
    }
  }

  /** Restarting behind the i-th emitted address yields exactly the remaining suffix. */
  lemma {:induction false} ResumeIsSuffix(v: nat, cfg: ShardConfig, i: nat)
    requires cfg.shards >= 1 && i < |Addresses(v, cfg)|
    ensures var next: int := Addresses(v, cfg)[i];
            Addresses(next + 1, cfg) == Addresses(v, cfg)[i + 1..]
    decreases U32 - v
  {
    hide Emits;
    if Emits(v, cfg) {
      if i > 0 {
        ResumeIsSuffix(v + 1, cfg, i - 1);
      }
    } else {
      ResumeIsSuffix(v + 1, cfg, i);
    }
  }

  /** `readCursor` and `start = v + 1`: 0 means "no cursor", and the sum is a uint32. */
  function ResumeStart(cursor: uint32, fallback: uint32): uint32 {
    if cursor == 0 then fallback else (cursor + 1) % U32
  }

  /**
    A cursor written for any emitted address is read back as that address, and the
    walk resumed there emits exactly what was still to come.
    */
  lemma CursorResumesExactly(v: nat, cfg: ShardConfig, i: nat, fallback: uint32)
    requires cfg.shards >= 1 && i < |Addresses(v, cfg)|
    ensures var a: int := Addresses(v, cfg)[i];
            && a != 0 && ResumeStart(a, fallback) == a + 1
            && Addresses(ResumeStart(a, fallback), cfg) == Addresses(v, cfg)[i + 1..]
  {
    hide Addresses, Emits, Reserved;
    var a := Addresses(v, cfg)[i];
    AddressesExact(v, cfg);
    EmitsInSpace(cfg);
    assert a in Addresses(v, cfg);
    ExtremesReserved(a);
    ResumeIsSuffix(v, cfg, i);
  }

  function Min(a: nat, b: nat): nat {
    if a < b then a else b
  }

  /** How many of n emissions a limit leaves; 0 is no limit. */
  function Least(n: nat, limit: nat): (m: nat)
    ensures m <= n && (limit != 0 ==> m <= limit) && (m == n || m == limit != 0)
  {
    if limit == 0 || n < limit then n else limit
  }

  /** What a run emits: the list, cut by a non-zero limit, then by cancellation after c sends. */
  function Emitted(full: seq<uint32>, limit: nat, cancelAfter: Option<nat>): seq<uint32> {
    var capped := if limit == 0 then full else full[..Min(limit, |full|)];
    if cancelAfter.None? then capped else capped[..Min(cancelAfter.value, |capped|)]
  }

  /** The inner loop of both generators: the end of the reserved block v is inside, plus one. */
  method JumpReserved(v: uint32) returns (w: int)
    requires Reserved(v)
    ensures v < w <= U32
    ensures forall x | v <= x < w :: Reserved(x)
  {
    var i := 0;
    while i < |RESERVED|
      invariant 0 <= i <= |RESERVED|
      invariant forall j | 0 <= j < i :: !Covers(RESERVED[j], v)
    {
      if v >= RESERVED[i].start && v <= RESERVED[i].end {
        w := RESERVED[i].end + 1;
        forall x | v <= x < w ensures Reserved(x) {
          assert Covers(RESERVED[i], x);
        }
        return;
      }
      i := i + 1;
    }
    assert false;
  }

  const CHECKPOINT_EVERY := 0x2_0000 // 1 << 17

  /**
    `GenerateShardedFull`. `cancelAfter` is how many sends succeed before the select
    picks the cancelled context; `offered` are the values put to the cursor channel.
    */
  method GenerateShardedFull(cfg0: ShardConfig, cancelAfter: Option<nat>)
    returns (out: seq<uint32>, offered: seq<uint32>)
    ensures var cfg := if cfg0.shards == 0 then cfg0.(shards := 1) else cfg0;
            && out == Emitted(Addresses(cfg0.startIp, cfg), cfg0.limit, cancelAfter)
            && out <= Addresses(cfg0.startIp, cfg)
            && (cancelAfter.None? ==> |out| == Least(|Addresses(cfg0.startIp, cfg)|, cfg0.limit))
            && (cancelAfter.Some? ==> |out| == Min(cancelAfter.value, Least(|Addresses(cfg0.startIp, cfg)|, cfg0.limit)))
    ensures |offered| == |out| / CHECKPOINT_EVERY
    ensures forall j | 0 <= j < |offered| :: offered[j] == out[(j + 1) * CHECKPOINT_EVERY - 1]
  {
    hide InShardSample, Reserved;
    var cfg := if cfg0.shards == 0 then cfg0.(shards := 1) else cfg0;
    out, offered := [], [];
    var v: int := cfg.startIp;
    var sinceCheckpoint := 0;
    ghost var full := Addresses(cfg.startIp, cfg);
    assert [] + full == full;
    while v < U32
      invariant 0 <= v <= U32
      invariant full == out + Addresses(v, cfg)
      invariant cfg.limit != 0 ==> |out| <= cfg.limit
      invariant cancelAfter.Some? ==> |out| <= cancelAfter.value
      invariant sinceCheckpoint == |out| % CHECKPOINT_EVERY
      invariant |offered| == |out| / CHECKPOINT_EVERY
      invariant forall j | 0 <= j < |offered| :: offered[j] == out[(j + 1) * CHECKPOINT_EVERY - 1]
      decreases U32 - v
    {
      if cfg.limit != 0 && |out| >= cfg.limit {
        return;
      }
      var reserved := IsReserved(v);
      if reserved {
        var w := JumpReserved(v);
        Jump(v, w, cfg);
        v := w;
        continue;
      }
      if !InShardSample(v, cfg.shards, cfg.shardId, cfg.threshold) {
        v := v + 1;
        continue;
      }
      assert Addresses(v, cfg) == [v] + Addresses(v + 1, cfg);
      if cancelAfter == Some(|out|) {
        return;
      }
      assert out + ([v] + Addresses(v + 1, cfg)) == out + [v] + Addresses(v + 1, cfg);
      out := out + [v];
      sinceCheckpoint := sinceCheckpoint + 1;
      if sinceCheckpoint >= CHECKPOINT_EVERY {
        sinceCheckpoint := 0;
        offered := offered + [v];
      }
      v := v + 1;
    }
  }

  /** `GenerateSequential` with a positive count is the one-shard, unsampled walk with that limit. */
  method GenerateSequential(startIp: uint32, count: nat, cancelAfter: Option<nat>) returns (out: seq<uint32>)
    ensures count > 0 ==>
              out == Emitted(Addresses(startIp, ShardConfig(1, 0, startIp, count, 0)), count, cancelAfter)
    ensures count > 0 && cancelAfter.None? ==>
              |out| == Least(|Addresses(startIp, ShardConfig(1, 0, startIp, count, 0))|, count)
    ensures count == 0 ==> out == []
  {
    hide Reserved;
    ghost var cfg := ShardConfig(1, 0, startIp, count, 0);
    out := [];
    var v: int := startIp;
    ghost var full := Addresses(startIp, cfg);
    assert [] + full == full;
    while |out| < count && v < U32
      invariant 0 <= v <= U32
      invariant full == out + Addresses(v, cfg)
      invariant |out| <= count
      invariant cancelAfter.Some? ==> |out| <= cancelAfter.value
      decreases U32 - v
    {
      var reserved := IsReserved(v);
      if reserved {
        var w := JumpReserved(v);
        Jump(v, w, cfg);
        v := w;
        continue;
      }
      assert Emits(v, cfg);
      assert Addresses(v, cfg) == [v] + Addresses(v + 1, cfg);
      if cancelAfter == Some(|out|) {
        return;
      }
      assert out + ([v] + Addresses(v + 1, cfg)) == out + [v] + Addresses(v + 1, cfg);
      out := out + [v];
      v := v + 1;
    }
  }
}
