/** When two PTR name lists count as the same: stated on the bytes of the names alone. */
module NameLaws {
  import opened Model
  import opened Names

  // ----- the same name, spelled differently -----

  /** Equal up to ASCII case: 65..90 are the capitals, 32 below their small letters. */
  predicate SameLetter(x: byte, y: byte) {
    x == y || (65 <= x <= 90 && y == x + 32) || (65 <= y <= 90 && x == y + 32)
  }

  predicate SameLetters(a: Name, b: Name) {
    |a| == |b| && forall i | 0 <= i < |a| :: SameLetter(a[i], b[i])
  }

  /** x is a without its one trailing dot, or a itself if it does not end in a dot. */
  predicate Undotted(a: Name, x: Name) {
    a == x + [DOT] || (a == x && (x == [] || x[|x| - 1] != DOT))
  }

  ghost predicate SameName(a: Name, b: Name) {
    exists x, y :: Undotted(a, x) && Undotted(b, y) && SameLetters(x, y)
  }

  ghost predicate SameInOrder(a: seq<Name>, b: seq<Name>) {
    |a| == |b| && forall i | 0 <= i < |a| :: SameName(a[i], b[i])
  }

  /** The same names in some order. */
  ghost predicate SameList(a: seq<Name>, b: seq<Name>) {
    exists c :: multiset(c) == multiset(b) && SameInOrder(a, c)
  }

  // ----- the normal form decides it -----

  lemma {:induction false} LowerIffSameLetters(a: Name, b: Name)
    ensures Lower(a) == Lower(b) <==> SameLetters(a, b)
  {
    if |a| == |b| && a != [] {
      LowerIffSameLetters(a[1..], b[1..]);
      assert Lower(a)[0] == LowerByte(a[0]) && Lower(b)[0] == LowerByte(b[0]);
      assert Lower(a)[1..] == Lower(a[1..]) && Lower(b)[1..] == Lower(b[1..]);
      assert Lower(a) == Lower(b) <==> LowerByte(a[0]) == LowerByte(b[0]) && Lower(a[1..]) == Lower(b[1..]);
      assert LowerByte(a[0]) == LowerByte(b[0]) <==> SameLetter(a[0], b[0]);
      assert a == [a[0]] + a[1..] && b == [b[0]] + b[1..];
      assert SameLetters(a, b) <==> SameLetter(a[0], b[0]) && SameLetters(a[1..], b[1..]);
    } else {
      assert |Lower(a)| == |a| && |Lower(b)| == |b|;
    }
  }

  lemma UndottedIsTrimmed(a: Name, x: Name)
    ensures Undotted(a, x) <==> x == Trimmed(a)
  {
    if a != [] && a[|a| - 1] == DOT {
      assert a == a[..|a| - 1] + [DOT];
    }
  }

  lemma NormalIffSameName(a: Name, b: Name)
    ensures Normal(a) == Normal(b) <==> SameName(a, b)
  {
    hide Lower, Trimmed, SameLetters, Undotted;
    UndottedIsTrimmed(a, Trimmed(a));
    UndottedIsTrimmed(b, Trimmed(b));
    LowerIffSameLetters(Trimmed(a), Trimmed(b));
    forall x, y | Undotted(a, x) && Undotted(b, y) ensures x == Trimmed(a) && y == Trimmed(b) {
      UndottedIsTrimmed(a, x);
      UndottedIsTrimmed(b, y);
    }
  }

  lemma {:induction false} NormalAllAt(names: seq<Name>, i: nat)
    requires i < |names|
    ensures NormalAll(names)[i] == Normal(names[i])
  {
    if i > 0 {
      NormalAllAt(names[1..], i - 1);
    }
  }

  lemma NormalAllIffInOrder(a: seq<Name>, b: seq<Name>)
    ensures NormalAll(a) == NormalAll(b) <==> SameInOrder(a, b)
  {
    hide NormalAll, Normal, SameName;
    forall i | 0 <= i < |a| ensures NormalAll(a)[i] == Normal(a[i]) {
      NormalAllAt(a, i);
    }
    forall i | 0 <= i < |b| ensures NormalAll(b)[i] == Normal(b[i]) {
      NormalAllAt(b, i);
    }
    forall i | 0 <= i < |a| && i < |b| ensures Normal(a[i]) == Normal(b[i]) <==> SameName(a[i], b[i]) {
      NormalIffSameName(a[i], b[i]);
    }
    if NormalAll(a) == NormalAll(b) {
      assert |a| == |NormalAll(a)| == |NormalAll(b)| == |b|;
    }
  }

  // ----- lists -----

  lemma {:induction false} NormalAllMoves(names: seq<Name>, i: nat)
    requires i < |names|
    ensures NormalAll(names[..i] + names[i + 1..]) == NormalAll(names)[..i] + NormalAll(names)[i + 1..]
  {
    hide NormalAll, Normal;
    var rest := names[..i] + names[i + 1..];
    forall k | 0 <= k < |rest| ensures NormalAll(rest)[k] == (NormalAll(names)[..i] + NormalAll(names)[i + 1..])[k] {
      NormalAllAt(rest, k);
      NormalAllAt(names, if k < i then k else k + 1);
    }
  }

  lemma WithoutAt<T>(s: seq<T>, i: nat)
    requires i < |s|
    ensures multiset(s) == multiset(s[..i] + s[i + 1..]) + multiset{s[i]}
  {
    assert s == s[..i] + [s[i]] + s[i + 1..];
  }

  /** Taking the head of one list out of a rearrangement of it. */
  lemma WithoutHead<T>(s: seq<T>, t: seq<T>, j: nat)
    requires s != [] && multiset(s) == multiset(t) && j < |t| && t[j] == s[0]
    ensures multiset(s[1..]) == multiset(t[..j] + t[j + 1..])
  {
    WithoutAt(t, j);
    assert s == [s[0]] + s[1..];
    assert multiset(s[1..]) == multiset(s) - multiset{s[0]};
  }

  lemma PutBack<T>(s: seq<T>, j: nat, d: seq<T>)
    requires j < |s| && multiset(d) == multiset(s[..j] + s[j + 1..])
    ensures multiset([s[j]] + d) == multiset(s)
  {
    WithoutAt(s, j);
  }

  lemma HeadIn<T>(s: seq<T>, t: seq<T>) returns (j: nat)
    requires s != [] && multiset(s) == multiset(t)
    ensures j < |t| && t[j] == s[0]
  {
    assert s[0] in multiset(t);
    j :| 0 <= j < |t| && t[j] == s[0];
  }

  lemma SameSize<T>(s: seq<T>, t: seq<T>)
    requires multiset(s) == multiset(t)
    ensures |s| == |t|
  {
    assert |multiset(s)| == |multiset(t)|;
  }

  lemma NormalAllCons(n: Name, names: seq<Name>)
    ensures NormalAll([n] + names) == [Normal(n)] + NormalAll(names)
  {
    assert ([n] + names)[1..] == names;
  }

  /** A list whose normal forms are a rearrangement can be rearranged itself. */
  lemma {:induction false} Rearrange(goal: seq<Name>, b: seq<Name>) returns (c: seq<Name>)
    requires multiset(goal) == multiset(NormalAll(b))
    ensures multiset(c) == multiset(b) && NormalAll(c) == goal
    decreases |goal|
  {
    hide Normal, NormalAll;
    SameSize(goal, NormalAll(b));
    c := b;
    if goal != [] {
      var j := HeadIn(goal, NormalAll(b));
      WithoutHead(goal, NormalAll(b), j);
      NormalAllMoves(b, j);
      c := Rearrange(goal[1..], b[..j] + b[j + 1..]);
      PutBack(b, j, c);
      NormalAllCons(b[j], c);
      NormalAllAt(b, j);
      c := [b[j]] + c;
      assert goal == [goal[0]] + goal[1..];
    }
  }

  lemma {:induction false} NormalAllPermutes(a: seq<Name>, b: seq<Name>)
    requires multiset(a) == multiset(b)
    ensures multiset(NormalAll(a)) == multiset(NormalAll(b))
    decreases |a|
  {
    hide Normal, NormalAll;
    SameSize(a, b);
    if a == [] {
      assert b == [];
    } else {
      var j := HeadIn(a, b);
      WithoutHead(a, b, j);
      NormalAllPermutes(a[1..], b[..j] + b[j + 1..]);
      NormalAllMoves(b, j);
      NormalAllAt(b, j);
      PutBack(NormalAll(b), j, NormalAll(a[1..]));
      assert a == [a[0]] + a[1..];
      NormalAllCons(a[0], a[1..]);
    }
  }

  lemma SameListIffNormal(a: seq<Name>, b: seq<Name>)
    ensures multiset(NormalAll(a)) == multiset(NormalAll(b)) <==> SameList(a, b)
  {
    hide NormalAll, SameInOrder;
    if multiset(NormalAll(a)) == multiset(NormalAll(b)) {
      var c := Rearrange(NormalAll(a), b);
      NormalAllIffInOrder(a, c);
    }
    if SameList(a, b) {
      var c :| multiset(c) == multiset(b) && SameInOrder(a, c);
      NormalAllIffInOrder(a, c);
      NormalAllPermutes(c, b);
    }
  }

  /**
    Lists that differ only in order, letter case and one trailing dot per name hash
    alike, whatever bytes the names hold.
    */
  lemma RespelledHashesAlike(a: seq<Name>, b: seq<Name>)
    requires SameList(a, b)
    ensures HashNames(a) == HashNames(b)
  {
    hide NormalAll, HashNames, SameList;
    SameListIffNormal(a, b);
    SameNamesSameHash(a, b);
  }

  /** The bytes that are hashed agree exactly for such lists: before FNV itself nothing else is identified. */
  lemma CanonicalIffSameList(a: seq<Name>, b: seq<Name>)
    requires (forall n | n in a :: NulFree(n)) && (forall n | n in b :: NulFree(n))
    ensures Canonical(a) == Canonical(b) <==> SameList(a, b)
  {
    hide NormalAll, Canonical, SameList, NulFree;
    SameListIffNormal(a, b);
    CanonicalIsFaithful(a, b);
  }

  /** One trailing dot never matters, in any position of any list. */
  lemma TrailingDotIgnored(names: seq<Name>, i: nat)
    requires i < |names| && (names[i] == [] || names[i][|names[i]| - 1] != DOT)
    ensures HashNames(names[i := names[i] + [DOT]]) == HashNames(names)
  {
    hide HashNames;
    var dotted := names[i := names[i] + [DOT]];
    forall k | 0 <= k < |names| ensures SameName(dotted[k], names[k]) {
      if k == i {
        assert Undotted(dotted[k], names[k]) && Undotted(names[k], names[k]) && SameLetters(names[k], names[k]);
      } else {
        NormalIffSameName(names[k], names[k]);
      }
    }
    assert SameInOrder(dotted, names);
    RespelledHashesAlike(dotted, names);
  }
}
