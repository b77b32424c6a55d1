/** Histograms and concatenation over sequences, and how they behave under reordering. */
module Counting {

  function Flatten<T>(ss: seq<seq<T>>): seq<T> {
    if ss == [] then [] else Flatten(ss[..|ss| - 1]) + ss[|ss| - 1]
  }

  lemma FlattenSnoc<T>(ss: seq<seq<T>>, s: seq<T>)
    ensures Flatten(ss + [s]) == Flatten(ss) + s
  {
    assert (ss + [s])[..|ss|] == ss;
  }

  /** How many elements have key k. */
  function CountKey<T>(key: T -> int, s: seq<T>, k: int): nat {
    if s == [] then 0
    else CountKey(key, s[..|s| - 1], k) + (if key(s[|s| - 1]) == k then 1 else 0)
  }

  lemma CountKeySnoc<T>(key: T -> int, s: seq<T>, x: T, k: int)
    ensures CountKey(key, s + [x], k) == CountKey(key, s, k) + (if key(x) == k then 1 else 0)
  {
    assert (s + [x])[..|s|] == s;
  }

  lemma {:induction false} CountKeyConcat<T>(key: T -> int, s: seq<T>, t: seq<T>, k: int)
    ensures CountKey(key, s + t, k) == CountKey(key, s, k) + CountKey(key, t, k)
  {
    if t == [] {
      assert s + t == s;
    } else {
      var init, last := t[..|t| - 1], t[|t| - 1];
      CountKeyConcat(key, s, init, k);
      assert s + t == (s + init) + [last];
      CountKeySnoc(key, s + init, last, k);
    }
  }

  lemma WithoutOne<T>(init: seq<T>, x: T, t: seq<T>, i: nat)
    requires i < |t| && t[i] == x && multiset(init + [x]) == multiset(t)
    ensures multiset(init) == multiset(t[..i] + t[i + 1..])
  {
    var before, behind := t[..i], t[i + 1..];
    assert t == before + [x] + behind;
    var a, b := multiset(init), multiset(before) + multiset(behind);
    assert a + multiset{x} == b + multiset{x};
    assert a == (a + multiset{x}) - multiset{x} == (b + multiset{x}) - multiset{x} == b;
  }

  lemma CountKeyRemove<T>(key: T -> int, t: seq<T>, i: nat, k: int)
    requires i < |t|
    ensures CountKey(key, t, k) == CountKey(key, t[..i] + t[i + 1..], k) + (if key(t[i]) == k then 1 else 0)
  {
    hide CountKey;
    var before, behind := t[..i], t[i + 1..];
    assert t == before + [t[i]] + behind;
    CountKeyConcat(key, before, behind, k);
    CountKeySnoc(key, before, t[i], k);
    CountKeyConcat(key, before + [t[i]], behind, k);
  }

  /** A histogram only depends on the multiset of elements. */
  lemma {:induction false} CountKeyPermutation<T>(key: T -> int, s: seq<T>, t: seq<T>, k: int)
    requires multiset(s) == multiset(t)
    ensures CountKey(key, s, k) == CountKey(key, t, k)
    decreases |s|
  {
    if s == [] {
      assert |multiset(t)| == 0;
    } else {
      var init, x := s[..|s| - 1], s[|s| - 1];
      assert s == init + [x];
      assert x in multiset(t);
      var i :| 0 <= i < |t| && t[i] == x;
      WithoutOne(init, x, t, i);
      CountKeyPermutation(key, init, t[..i] + t[i + 1..], k);
      CountKeyRemove(key, t, i, k);
    }
  }
}
