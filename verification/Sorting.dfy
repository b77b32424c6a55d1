/**
  The library sorts and the binary search that the store, merge and compare
  packages call, and the keep-first deduplication both packages hand-write.
  Elements are compared by an integer key (always the address here).
  */
module Sorting {
  import opened Model

  ghost predicate SortedBy<T>(key: T -> int, s: seq<T>) {
    forall i, j | 0 <= i < j < |s| :: key(s[i]) <= key(s[j])
  }

  ghost predicate StrictlySortedBy<T>(key: T -> int, s: seq<T>) {
    forall i, j | 0 <= i < j < |s| :: key(s[i]) < key(s[j])
  }

  ghost predicate DistinctKeys<T>(key: T -> int, s: seq<T>) {
    forall i, j | 0 <= i < j < |s| :: key(s[i]) != key(s[j])
  }

  /** The keys that occur in s. */
  ghost function Keys<T>(key: T -> int, s: seq<T>): set<int> {
    set i | 0 <= i < |s| :: key(s[i])
  }

  lemma {:induction false} DistinctSize<T>(key: T -> int, s: seq<T>)
    requires DistinctKeys(key, s)
    ensures |Keys(key, s)| == |s|
  {
    if s == [] {
      assert Keys(key, s) == {};
    } else {
      var n := |s| - 1;
      DistinctSize(key, s[..n]);
      assert forall i | 0 <= i < n :: key(s[..n][i]) == key(s[i]);
      assert Keys(key, s) == Keys(key, s[..n]) + {key(s[n])};
      assert key(s[n]) !in Keys(key, s[..n]);
    }
  }

  /** The elements of s with key k, in order. */
  function WithKey<T>(key: T -> int, s: seq<T>, k: int): seq<T> {
    if s == [] then []
    else
      var init, last := s[..|s| - 1], s[|s| - 1];
      WithKey(key, init, k) + (if key(last) == k then [last] else [])
  }

  /** The first element of s with key k: the observation that wins when addresses repeat. */
  function FirstWith<T>(key: T -> int, s: seq<T>, k: int): (r: Option<T>)
    ensures r.Some? ==> r.value in s && key(r.value) == k
    ensures r.None? ==> forall i | 0 <= i < |s| :: key(s[i]) != k
  {
    if s == [] then None
    else
      var init, last := s[..|s| - 1], s[|s| - 1];
      var earlier := FirstWith(key, init, k);
      if earlier.Some? then earlier
      else if key(last) == k then Some(last) else None
  }

  lemma {:induction false} FirstIsHeadOfWithKey<T>(key: T -> int, s: seq<T>, k: int)
    ensures FirstWith(key, s, k) == if WithKey(key, s, k) == [] then None else Some(WithKey(key, s, k)[0])
  {
    if s != [] {
      FirstIsHeadOfWithKey(key, s[..|s| - 1], k);
    }
  }

  lemma FirstSnoc<T>(key: T -> int, s: seq<T>, x: T, k: int)
    ensures FirstWith(key, s + [x], k)
         == if FirstWith(key, s, k).Some? then FirstWith(key, s, k) else if key(x) == k then Some(x) else None
  {
    assert (s + [x])[..|s|] == s;
  }

  /** What is first in a prefix is first. */
  lemma {:induction false} FirstOfPrefix<T>(key: T -> int, s: seq<T>, n: nat, k: int)
    requires n <= |s| && FirstWith(key, s[..n], k).Some?
    ensures FirstWith(key, s, k) == FirstWith(key, s[..n], k)
  {
    if n == |s| {
      assert s[..n] == s;
    } else {
      assert s[..|s| - 1][..n] == s[..n];
      FirstOfPrefix(key, s[..|s| - 1], n, k);
    }
  }

  /** When keys are distinct, an element is the first with its key. */
  lemma {:induction false} FirstOfDistinct<T>(key: T -> int, s: seq<T>, i: nat)
    requires DistinctKeys(key, s) && i < |s|
    ensures FirstWith(key, s, key(s[i])) == Some(s[i])
  {
    var init := s[..|s| - 1];
    if i < |s| - 1 {
      FirstOfDistinct(key, init, i);
    }
  }

  // ----- sorting -----

  /** Inserts x behind every element whose key does not exceed its own. */
  function InsertBy<T>(key: T -> int, x: T, s: seq<T>): seq<T> {
    if s == [] || key(s[|s| - 1]) <= key(x) then s + [x]
    else InsertBy(key, x, s[..|s| - 1]) + [s[|s| - 1]]
  }

  function SortBy<T>(key: T -> int, s: seq<T>): seq<T> {
    if s == [] then [] else InsertBy(key, s[|s| - 1], SortBy(key, s[..|s| - 1]))
  }

  lemma {:induction false} InsertMultiset<T>(key: T -> int, x: T, s: seq<T>)
    ensures multiset(InsertBy(key, x, s)) == multiset(s) + multiset{x}
  {
    if !(s == [] || key(s[|s| - 1]) <= key(x)) {
      InsertMultiset(key, x, s[..|s| - 1]);
      assert s == s[..|s| - 1] + [s[|s| - 1]];
    }
  }

  lemma {:induction false} InsertSorted<T>(key: T -> int, x: T, s: seq<T>)
    requires SortedBy(key, s)
    ensures SortedBy(key, InsertBy(key, x, s))
    ensures forall y | y in InsertBy(key, x, s) :: y == x || y in s
  {
    if !(s == [] || key(s[|s| - 1]) <= key(x)) {
      var init, last := s[..|s| - 1], s[|s| - 1];
      InsertSorted(key, x, init);
      var r := InsertBy(key, x, init);
      forall i | 0 <= i < |r| ensures key(r[i]) <= key(last) {
        assert r[i] in r;
      }
    }
  }

  lemma {:induction false} InsertStable<T>(key: T -> int, x: T, s: seq<T>, k: int)
    requires SortedBy(key, s)
    ensures WithKey(key, InsertBy(key, x, s), k) == WithKey(key, s, k) + (if key(x) == k then [x] else [])
  {
    var r := InsertBy(key, x, s);
    if s == [] || key(s[|s| - 1]) <= key(x) {
      assert r[..|r| - 1] == s;
    } else {
      var init, last := s[..|s| - 1], s[|s| - 1];
      InsertStable(key, x, init, k);
      assert r[..|r| - 1] == InsertBy(key, x, init);
      if key(last) == k {
        assert key(x) != k;
        assert WithKey(key, init, k) + [last] == WithKey(key, s, k);
      } else {
        assert WithKey(key, init, k) == WithKey(key, s, k);
      }
    }
  }

  lemma {:induction false} SortByPermutes<T>(key: T -> int, s: seq<T>)
    ensures multiset(SortBy(key, s)) == multiset(s)
  {
    hide InsertBy;
    if s != [] {
      var init, last := s[..|s| - 1], s[|s| - 1];
      SortByPermutes(key, init);
      InsertMultiset(key, last, SortBy(key, init));
      assert s == init + [last];
    }
  }

  lemma {:induction false} SortBySorts<T>(key: T -> int, s: seq<T>)
    ensures SortedBy(key, SortBy(key, s))
  {
    hide InsertBy;
    if s != [] {
      SortBySorts(key, s[..|s| - 1]);
      InsertSorted(key, s[|s| - 1], SortBy(key, s[..|s| - 1]));
    }
  }

  lemma {:induction false} SortByStable<T>(key: T -> int, s: seq<T>, k: int)
    ensures WithKey(key, SortBy(key, s), k) == WithKey(key, s, k)
  {
    if s != [] {
      SortByStable(key, s[..|s| - 1], k);
      SortBySorts(key, s[..|s| - 1]);
      InsertStable(key, s[|s| - 1], SortBy(key, s[..|s| - 1]), k);
    }
  }

  /** `slices.SortStableFunc`: sorted, a permutation, and equal keys keep their order. */
  method StableSort<T>(key: T -> int, s: seq<T>) returns (r: seq<T>)
    ensures SortedBy(key, r)
    ensures multiset(r) == multiset(s)
    ensures forall k :: WithKey(key, r, k) == WithKey(key, s, k)
  {
    r := SortBy(key, s);
    SortBySorts(key, s);
    SortByPermutes(key, s);
    forall k ensures WithKey(key, r, k) == WithKey(key, s, k) {
      SortByStable(key, s, k);
    }
  }

  /** `sort.Slice` and `slices.SortFunc`: nothing is promised about the order of equal keys. */
  method UnstableSort<T>(key: T -> int, s: seq<T>) returns (r: seq<T>)
    ensures SortedBy(key, r)
    ensures multiset(r) == multiset(s)
    ensures |r| == |s|
  {
    r := SortBy(key, s);
    SortBySorts(key, s);
    SortByPermutes(key, s);
    assert |multiset(r)| == |multiset(s)|;
  }

  // ----- keep-first deduplication of a sorted list -----

  function DedupAdjacent<T>(key: T -> int, s: seq<T>): (d: seq<T>)
    ensures |d| <= |s|
    ensures s != [] ==> d != [] && key(d[|d| - 1]) == key(s[|s| - 1])
  {
    if s == [] then []
    else
      var d, last := DedupAdjacent(key, s[..|s| - 1]), s[|s| - 1];
      if d != [] && key(d[|d| - 1]) == key(last) then d else d + [last]
  }

  lemma DedupNothing<T>(key: T -> int, s: seq<T>)
    ensures DedupAdjacent(key, s[..0]) == []
  {
  }

  lemma DedupStep<T>(key: T -> int, s: seq<T>, i: nat)
    requires i < |s|
    ensures var d := DedupAdjacent(key, s[..i]);
            DedupAdjacent(key, s[..i + 1]) == if d != [] && key(d[|d| - 1]) == key(s[i]) then d else d + [s[i]]
  {
    assert s[..i + 1][..i] == s[..i];
  }

  /** Writing the next kept element over position `out` of a list compacted in place. */
  lemma CompactStep<T>(a: seq<T>, s: seq<T>, kept: seq<T>, i: nat)
    requires |a| == |s| && |kept| <= i < |s|
    requires a[..|kept|] == kept && a[i..] == s[i..]
    ensures a[i] == s[i] && a[i + 1..] == s[i + 1..]
    ensures a[|kept| := s[i]][..|kept| + 1] == kept + [s[i]]
    ensures a[|kept| := s[i]][i + 1..] == s[i + 1..]
  {
    assert a[i] == a[i..][0] && s[i] == s[i..][0];
    assert a[i + 1..] == a[i..][1..] && s[i + 1..] == s[i..][1..];
    assert a[|kept| := s[i]][..|kept|] == kept;
  }

  lemma {:induction false} DedupStrict<T>(key: T -> int, s: seq<T>)
    requires SortedBy(key, s)
    ensures StrictlySortedBy(key, DedupAdjacent(key, s))
  {
    if s != [] {
      var init, last := s[..|s| - 1], s[|s| - 1];
      DedupStrict(key, init);
      var d := DedupAdjacent(key, init);
      if d != [] && key(d[|d| - 1]) != key(last) {
        assert key(d[|d| - 1]) == key(s[|s| - 2]) <= key(last);
      }
    }
  }

  /** On a sorted list it keeps exactly the first element of every key. */
  lemma {:induction false} DedupKeepsFirst<T>(key: T -> int, s: seq<T>, k: int)
    requires SortedBy(key, s)
    ensures FirstWith(key, DedupAdjacent(key, s), k) == FirstWith(key, s, k)
  {
    if s != [] {
      var init, last := s[..|s| - 1], s[|s| - 1];
      DedupKeepsFirst(key, init, k);
      var d := DedupAdjacent(key, init);
      if d != [] && key(d[|d| - 1]) == key(last) {
        assert key(last) == k ==> FirstWith(key, d, k).Some?;
      } else {
        assert (d + [last])[..|d|] == d;
      }
    }
  }

  lemma {:induction false} DedupDistinct<T>(key: T -> int, s: seq<T>)
    requires DistinctKeys(key, s)
    ensures DedupAdjacent(key, s) == s
  {
    if s != [] {
      var init, last := s[..|s| - 1], s[|s| - 1];
      DedupDistinct(key, init);
      assert s == init + [last];
      assert init != [] ==> key(init[|init| - 1]) == key(s[|s| - 2]) != key(last);
    }
  }

  lemma StrictIsDistinct<T>(key: T -> int, s: seq<T>)
    requires StrictlySortedBy(key, s)
    ensures DistinctKeys(key, s)
  {
  }

  /** Distinctness of keys only depends on the multiset of elements. */
  lemma DistinctPermutation<T>(key: T -> int, s: seq<T>, t: seq<T>)
    requires multiset(s) == multiset(t) && DistinctKeys(key, s)
    ensures DistinctKeys(key, t)
  {
    forall i, j | 0 <= i < j < |t| ensures key(t[i]) != key(t[j]) {
      DistinctOnce(key, s, t[i]);
      OccursOnce(t, i, j);
      assert t[i] in multiset(s) && t[j] in multiset(s);
      var a :| 0 <= a < |s| && s[a] == t[i];
      var b :| 0 <= b < |s| && s[b] == t[j];
      assert key(s[a]) != key(s[b]);
    }
  }

  lemma OccursOnce<T>(t: seq<T>, i: nat, j: nat)
    requires i < j < |t| && multiset(t)[t[i]] <= 1
    ensures t[i] != t[j]
  {
    assert t == t[..i + 1] + t[i + 1..];
    assert t[i] == t[..i + 1][i] && t[i] in t[..i + 1];
    assert t[j] == t[i + 1..][j - i - 1] && t[j] in t[i + 1..];
  }

  lemma {:induction false} DistinctOnce<T>(key: T -> int, s: seq<T>, x: T)
    requires DistinctKeys(key, s)
    ensures multiset(s)[x] <= 1
  {
    if s != [] {
      var init, last := s[..|s| - 1], s[|s| - 1];
      DistinctOnce(key, init, x);
      assert s == init + [last];
    }
  }

  // ----- binary search -----

  /** `sort.Search`: the least index whose key is at least k. */
  method Search<T>(key: T -> int, s: seq<T>, k: int) returns (i: nat)
    requires SortedBy(key, s)
    ensures i <= |s|
    ensures forall j | 0 <= j < i :: key(s[j]) < k
    ensures forall j | i <= j < |s| :: k <= key(s[j])
  {
    i := 0;
    var hi := |s|;
    while i < hi
      invariant 0 <= i <= hi <= |s|
      invariant forall j | 0 <= j < i :: key(s[j]) < k
      invariant forall j | hi <= j < |s| :: k <= key(s[j])
    {
      var h := (i + hi) / 2;
      if key(s[h]) >= k {
        hi := h;
      } else {
        i := h + 1;
      }
    }
  }
}
