/**
  Change detection on PTR name sets: `hashNames` of internal/compare/compare.go
  and its copy in internal/merge/merge.go.
  */
module Names {
  import opened Model

  const NUL: byte := 0

  predicate NulFree(n: Name) {
    forall i | 0 <= i < |n| :: n[i] != NUL
  }

  // ----- normal form of one name -----

  /** `strings.TrimSuffix(n, ".")` */
  function Trimmed(n: Name): Name {
    if n != [] && n[|n| - 1] == DOT then n[..|n| - 1] else n
  }

  function LowerByte(b: byte): byte {
    if 65 <= b <= 90 then b + 32 else b
  }

  function Lower(n: Name): (r: Name)
    ensures |r| == |n|
  {
    if n == [] then [] else [LowerByte(n[0])] + Lower(n[1..])
  }

  function Normal(n: Name): Name {
    Lower(Trimmed(n))
  }

  function NormalAll(names: seq<Name>): (r: seq<Name>)
    ensures |r| == |names|
  {
    if names == [] then [] else [Normal(names[0])] + NormalAll(names[1..])
  }

  lemma {:induction false} LowerNulFree(n: Name)
    requires NulFree(n)
    ensures NulFree(Lower(n))
  {
    if n != [] {
      LowerNulFree(n[1..]);
    }
  }

  lemma {:induction false} NormalAllNulFree(names: seq<Name>)
    requires forall n | n in names :: NulFree(n)
    ensures forall n | n in NormalAll(names) :: NulFree(n)
  {
    if names != [] {
      assert names[0] in names;
      LowerNulFree(Trimmed(names[0]));
      NormalAllNulFree(names[1..]);
    }
  }

  // ----- sort.Strings -----

  /** Byte-wise lexicographic order. */
  predicate LexLeq(a: Name, b: Name) {
    a == [] || (b != [] && (a[0] < b[0] || (a[0] == b[0] && LexLeq(a[1..], b[1..]))))
  }

  lemma {:induction false} LexTotal(a: Name, b: Name)
    ensures LexLeq(a, b) || LexLeq(b, a)
  {
    if a != [] && b != [] && a[0] == b[0] {
      LexTotal(a[1..], b[1..]);
    }
  }

  lemma {:induction false} LexAntisymmetric(a: Name, b: Name)
    requires LexLeq(a, b) && LexLeq(b, a)
    ensures a == b
  {
    if a != [] && b != [] {
      LexAntisymmetric(a[1..], b[1..]);
      assert a == [a[0]] + a[1..] && b == [b[0]] + b[1..];
    }
  }

  lemma {:induction false} LexTransitive(a: Name, b: Name, c: Name)
    requires LexLeq(a, b) && LexLeq(b, c)
    ensures LexLeq(a, c)
  {
    if a != [] && a[0] == b[0] == c[0] {
      LexTransitive(a[1..], b[1..], c[1..]);
    }
  }

  function InsertName(x: Name, s: seq<Name>): seq<Name> {
    if s == [] || LexLeq(x, s[0]) then [x] + s else [s[0]] + InsertName(x, s[1..])
  }

  /** `sort.Strings` */
  function SortNames(s: seq<Name>): seq<Name> {
    if s == [] then [] else InsertName(s[0], SortNames(s[1..]))
  }

  predicate Sorted(s: seq<Name>) {
    s == [] || ((forall x | x in s[1..] :: LexLeq(s[0], x)) && Sorted(s[1..]))
  }

  lemma {:induction false} InsertNameSorts(x: Name, s: seq<Name>)
    requires Sorted(s)
    ensures Sorted(InsertName(x, s))
    ensures multiset(InsertName(x, s)) == multiset(s) + multiset{x}
  {
    if s == [] {
    } else {
      assert s == [s[0]] + s[1..];
      LexTotal(x, s[0]);
      var r := InsertName(x, s);
      if LexLeq(x, s[0]) {
        assert r[1..] == s;
        forall y | y in s ensures LexLeq(x, y) {
          if y != s[0] {
            assert y in s[1..];
            LexTransitive(x, s[0], y);
          }
        }
      } else {
        InsertNameSorts(x, s[1..]);
        assert r[1..] == InsertName(x, s[1..]);
        forall y | y in r[1..] ensures LexLeq(s[0], y) {
          assert y in multiset(r[1..]);
        }
      }
    }
  }

  lemma {:induction false} SortNamesSorts(s: seq<Name>)
    ensures Sorted(SortNames(s)) && multiset(SortNames(s)) == multiset(s)
  {
    if s != [] {
      SortNamesSorts(s[1..]);
      InsertNameSorts(s[0], SortNames(s[1..]));
      assert s == [s[0]] + s[1..];
    }
  }

  lemma SameHead(a: seq<Name>, b: seq<Name>)
    requires Sorted(a) && Sorted(b) && multiset(a) == multiset(b) && a != [] && b != []
    ensures a[0] == b[0]
  {
    assert a == [a[0]] + a[1..] && b == [b[0]] + b[1..];
    assert a[0] in multiset(b) && b[0] in multiset(a);
    if a[0] != b[0] {
      assert a[0] in b[1..] && b[0] in a[1..];
      LexAntisymmetric(a[0], b[0]);
      assert false;
    }
  }

  lemma TailMultiset(a: seq<Name>, b: seq<Name>)
    requires multiset(a) == multiset(b) && a != [] && b != [] && a[0] == b[0]
    ensures multiset(a[1..]) == multiset(b[1..])
  {
    assert a == [a[0]] + a[1..] && b == [b[0]] + b[1..];
    assert multiset(a[1..]) == multiset(a) - multiset{a[0]};
    assert multiset(b[1..]) == multiset(b) - multiset{b[0]};
  }

  /** The lexicographic order is total, so the sorted arrangement is unique. */
  lemma {:induction false} SortedUnique(a: seq<Name>, b: seq<Name>)
    requires Sorted(a) && Sorted(b) && multiset(a) == multiset(b)
    ensures a == b
    decreases |a|
  {
    hide LexLeq;
    assert |multiset(a)| == |multiset(b)|;
    if a != [] {
      SameHead(a, b);
      TailMultiset(a, b);
      SortedUnique(a[1..], b[1..]);
      assert a == [a[0]] + a[1..] && b == [b[0]] + b[1..];
    }
  }

  // ----- the hash -----

  const OFFSET64: bv64 := 14695981039346656037
  const PRIME64: bv64 := 1099511628211

  function FnvStep(h: bv64, b: byte): bv64 {
    (h ^ (b as bv64)) * PRIME64
  }

  /** FNV-1a from state h. */
  function Fnv(h: bv64, bytes: seq<byte>): bv64
    decreases bytes
  {
    if bytes == [] then h else Fnv(FnvStep(h, bytes[0]), bytes[1..])
  }

  /** Every name followed by a NUL. */
  function Serial(names: seq<Name>): seq<byte> {
    if names == [] then [] else names[0] + [NUL] + Serial(names[1..])
  }

  /** The bytes that are hashed: sorted normal forms, NUL-terminated. */
  function Canonical(names: seq<Name>): seq<byte> {
    Serial(SortNames(NormalAll(names)))
  }

  function HashNames(names: seq<Name>): bv64 {
    if names == [] then 0 else Fnv(OFFSET64, Canonical(names))
  }

  /** The published FNV-1a value of the one-letter text "a". */
  lemma FnvReference()
    ensures Fnv(OFFSET64, [97]) == 0xaf63dc4c8601ec8c
  {
    assert Fnv(OFFSET64, [97]) == FnvStep(OFFSET64, 97);
  }

  lemma {:induction false} FnvConcat(h: bv64, a: seq<byte>, b: seq<byte>)
    ensures Fnv(h, a + b) == Fnv(Fnv(h, a), b)
    decreases a
  {
    hide FnvStep;
    if a == [] {
      assert a + b == b;
    } else {
      FnvConcat(FnvStep(h, a[0]), a[1..], b);
      assert (a + b)[1..] == a[1..] + b && (a + b)[0] == a[0];
    }
  }

  /** The normalising loop of `hashNames`. */
  method Normalise(names: seq<Name>) returns (norm: seq<Name>)
    ensures norm == NormalAll(names)
  {
    hide Normal;
    norm := [];
    var i := 0;
    while i < |names|
      invariant 0 <= i <= |names|
      invariant NormalAll(names) == norm + NormalAll(names[i..])
    {
      assert names[i..][0] == names[i] && names[i..][1..] == names[i + 1..];
      norm := norm + [Normal(names[i])];
      i := i + 1;
    }
  }

  /** The inner loop of `hashNames` over the bytes of one name. */
  method HashBytes(start: bv64, n: Name) returns (h: bv64)
    ensures h == Fnv(start, n)
  {
    hide FnvStep;
    h := start;
    var j := 0;
    assert n[0..] == n;
    while j < |n|
      invariant 0 <= j <= |n|
      invariant Fnv(start, n) == Fnv(h, n[j..])
    {
      assert n[j..][0] == n[j] && n[j..][1..] == n[j + 1..];
      h := FnvStep(h, n[j]);
      j := j + 1;
    }
  }

  /** `hashNames` */
  method ComputeHash(names: seq<Name>) returns (h: bv64)
    ensures h == HashNames(names)
  {
    hide FnvStep, NormalAll, InsertName;
    if |names| == 0 {
      return 0;
    }
    var norm := Normalise(names);
    var sorted := SortNames(norm);
    h := OFFSET64;
    var k := 0;
    assert sorted[0..] == sorted;
    while k < |sorted|
      invariant 0 <= k <= |sorted|
      invariant Fnv(OFFSET64, Serial(sorted)) == Fnv(h, Serial(sorted[k..]))
    {
      var n := sorted[k];
      assert sorted[k..][0] == n && sorted[k..][1..] == sorted[k + 1..];
      ghost var rest := [NUL] + Serial(sorted[k + 1..]);
      assert Serial(sorted[k..]) == n + rest;
      FnvConcat(h, n, rest);
      h := HashBytes(h, n);
      assert rest[0] == NUL && rest[1..] == Serial(sorted[k + 1..]);
      h := FnvStep(h, NUL);
      k := k + 1;
    }
  }

  // ----- soundness of change detection -----

  /** The serialisation determines the list of names. */
  lemma {:induction false} SerialInjective(a: seq<Name>, b: seq<Name>)
    requires forall n | n in a :: NulFree(n)
    requires forall n | n in b :: NulFree(n)
    requires Serial(a) == Serial(b)
    ensures a == b
    decreases |a|
  {
    if a != [] && b != [] {
      assert a[0] in a && b[0] in b;
      var s := Serial(a);
      assert s[|a[0]|] == NUL && s[|b[0]|] == NUL;
      assert forall i | 0 <= i < |a[0]| :: s[i] == a[0][i];
      assert forall i | 0 <= i < |b[0]| :: s[i] == b[0][i];
      assert |a[0]| == |b[0]|;
      assert a[0] == b[0];
      assert Serial(a[1..]) == s[|a[0]| + 1..];
      assert Serial(b[1..]) == s[|b[0]| + 1..];
      SerialInjective(a[1..], b[1..]);
      assert a == [a[0]] + a[1..] && b == [b[0]] + b[1..];
    }
  }

  /**
    Name lists equal up to order, case and one trailing dot always hash alike, so
    whatever counts as changed differs as a multiset of normalised names.
    */
  lemma SameNamesSameHash(a: seq<Name>, b: seq<Name>)
    requires multiset(NormalAll(a)) == multiset(NormalAll(b))
    ensures Canonical(a) == Canonical(b) && HashNames(a) == HashNames(b)
  {
    hide Fnv, Serial, Normal, InsertName, Sorted;
    var x, y := NormalAll(a), NormalAll(b);
    assert |multiset(x)| == |multiset(y)|;
    SortNamesSorts(x);
    SortNamesSorts(y);
    SortedUnique(SortNames(x), SortNames(y));
  }

  /** What is hashed is exactly the normalised multiset: nothing is lost before FNV itself. */
  lemma CanonicalIsFaithful(a: seq<Name>, b: seq<Name>)
    requires forall n | n in a :: NulFree(n)
    requires forall n | n in b :: NulFree(n)
    ensures Canonical(a) == Canonical(b) <==> multiset(NormalAll(a)) == multiset(NormalAll(b))
  {
    hide Fnv, Serial, Normal, InsertName, NormalAll, NulFree;
    var x, y := NormalAll(a), NormalAll(b);
    if Canonical(a) == Canonical(b) {
      NormalAllNulFree(a);
      NormalAllNulFree(b);
      SortNamesSorts(x);
      SortNamesSorts(y);
      forall n | n in SortNames(x) ensures NulFree(n) {
        assert n in multiset(x);
      }
      forall n | n in SortNames(y) ensures NulFree(n) {
        assert n in multiset(y);
      }
      SerialInjective(SortNames(x), SortNames(y));
    } else if multiset(x) == multiset(y) {
      SameNamesSameHash(a, b);
    }
  }
}
