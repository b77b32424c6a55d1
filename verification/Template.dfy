/**
  IP templating (internal/store/template.go): every textual form of a record's
  own address inside a hostname is replaced by a one-byte marker.
  */
module Template {
  import opened Model

  const FWD_DASH: byte := 1
  const REV_DASH: byte := 2
  const FWD_DOT: byte := 3
  const REV_DOT: byte := 4

  const DASH: byte := 45
  const ZERO: byte := 48

  predicate IsMarker(b: byte) {
    1 <= b <= 4
  }

  predicate MarkerFree(s: Name) {
    forall i | 0 <= i < |s| :: !IsMarker(s[i])
  }

  // ----- the four textual forms of an address -----

  function Octets(ip: uint32): (o: (byte, byte, byte, byte))
    ensures ip == ((o.0 * 256 + o.1) * 256 + o.2) * 256 + o.3
  {
    var x := ip / 0x100;
    var y := ip / 0x1_0000;
    assert y == x / 256;
    assert ip / 0x100_0000 == y / 256;
    (ip / 0x100_0000, y % 256, x % 256, ip % 256)
  }

  /** The number a string of decimal digits denotes. */
  function Decimal(s: Name): int {
    if s == [] then 0 else 10 * Decimal(s[..|s| - 1]) + (s[|s| - 1] - ZERO)
  }

  lemma DecimalSnoc(s: Name, d: byte)
    ensures Decimal(s + [d]) == 10 * Decimal(s) + (d - ZERO)
  {
    assert (s + [d])[..|s|] == s;
  }

  lemma DigitsDenote(a: byte, b: byte, c: byte)
    ensures Decimal([a]) == a - ZERO
    ensures Decimal([a, b]) == 10 * (a - ZERO) + (b - ZERO)
    ensures Decimal([a, b, c]) == 100 * (a - ZERO) + 10 * (b - ZERO) + (c - ZERO)
  {
    DecimalSnoc([], a);
    DecimalSnoc([a], b);
    DecimalSnoc([a, b], c);
    assert [] + [a] == [a] && [a] + [b] == [a, b] && [a, b] + [c] == [a, b, c];
  }

  lemma ThreeDigits(v: byte)
    ensures v == 100 * (v / 100) + 10 * (v / 10 % 10) + v % 10
  {
    assert v / 100 == v / 10 / 10;
  }

  /** Decimal text of 0..255: the right value, digits only, no leading zero. */
  function Itoa(v: byte): (r: Name)
    ensures Decimal(r) == v
    ensures 1 <= |r| <= 3 && forall i | 0 <= i < |r| :: ZERO <= r[i] <= ZERO + 9
    ensures |r| > 1 ==> r[0] != ZERO
  {
    if v < 10 then
      DigitsDenote(ZERO + v, 0, 0);
      [ZERO + v]
    else if v < 100 then
      DigitsDenote(ZERO + v / 10, ZERO + v % 10, 0);
      [ZERO + v / 10, ZERO + v % 10]
    else
      DigitsDenote(ZERO + v / 100, ZERO + v / 10 % 10, ZERO + v % 10);
      ThreeDigits(v);
      [ZERO + v / 100, ZERO + v / 10 % 10, ZERO + v % 10]
  }

  function Join4(w: byte, x: byte, y: byte, z: byte, sep: byte): (r: Name)
    requires !IsMarker(sep)
    ensures |r| >= 7 && MarkerFree(r)
  {
    Itoa(w) + [sep] + Itoa(x) + [sep] + Itoa(y) + [sep] + Itoa(z)
  }

  /** The text that marker m stands for in a record of address ip. */
  function Form(ip: uint32, m: byte): (r: Name)
    requires IsMarker(m)
    ensures |r| >= 7 && MarkerFree(r)
  {
    var (a, b, c, d) := Octets(ip);
    if m == FWD_DASH then Join4(a, b, c, d, DASH)
    else if m == REV_DASH then Join4(d, c, b, a, DASH)
    else if m == FWD_DOT then Join4(a, b, c, d, DOT)
    else Join4(d, c, b, a, DOT)
  }

  // ----- encoding and decoding -----

  /** `strings.ReplaceAll(h, pat, m)`: leftmost, non-overlapping. */
  function ReplaceAll(h: Name, pat: Name, m: byte): (r: Name)
    requires pat != []
    ensures |r| <= |h|
    decreases |h|
  {
    if |h| < |pat| then h
    else if h[..|pat|] == pat then [m] + ReplaceAll(h[|pat|..], pat, m)
    else [h[0]] + ReplaceAll(h[1..], pat, m)
  }

  function Replaced(ip: uint32, h: Name, m: byte): (r: Name)
    requires IsMarker(m)
    ensures |r| <= |h|
  {
    ReplaceAll(h, Form(ip, m), m)
  }

  /** `encodeTemplate`: four replacements in sequence; never lengthens the name. */
  function Encode(ip: uint32, host: Name): (r: Name)
    ensures |r| <= |host|
  {
    var h1 := Replaced(ip, host, FWD_DASH);
    var h2 := Replaced(ip, h1, REV_DASH);
    var h3 := Replaced(ip, h2, FWD_DOT);
    Replaced(ip, h3, REV_DOT)
  }

  /** `decodeTemplate`: one simultaneous pass that expands every marker byte. */
  function Decode(ip: uint32, s: Name): Name {
    if s == [] then []
    else (if IsMarker(s[0]) then Form(ip, s[0]) else [s[0]]) + Decode(ip, s[1..])
  }

  // ----- the round trip -----

  lemma {:induction false} DecodeConcat(ip: uint32, s: Name, t: Name)
    ensures Decode(ip, s + t) == Decode(ip, s) + Decode(ip, t)
  {
    if s == [] {
      assert s + t == t;
    } else {
      assert (s + t)[1..] == s[1..] + t;
      DecodeConcat(ip, s[1..], t);
    }
  }

  lemma {:induction false} DecodeMarkerFree(ip: uint32, s: Name)
    requires MarkerFree(s)
    ensures Decode(ip, s) == s
  {
    if s != [] {
      DecodeMarkerFree(ip, s[1..]);
    }
  }

  /** No marker is left after decoding. */
  lemma {:induction false} DecodeIsMarkerFree(ip: uint32, s: Name)
    ensures MarkerFree(Decode(ip, s))
  {
    hide Form;
    if s != [] {
      DecodeIsMarkerFree(ip, s[1..]);
    }
  }

  /** Decoding expands, strictly as soon as there is a marker. */
  lemma {:induction false} DecodeLength(ip: uint32, s: Name)
    ensures |Decode(ip, s)| >= |s|
    ensures !MarkerFree(s) ==> |Decode(ip, s)| > |s|
  {
    if s != [] {
      DecodeLength(ip, s[1..]);
      if !IsMarker(s[0]) && MarkerFree(s[1..]) {
        assert s == [s[0]] + s[1..];
        assert MarkerFree(s);
      }
    }
  }

  /** Replacing a form by its marker is invisible after decoding, for any text. */
  lemma {:induction false} ReplacePreservesMeaning(ip: uint32, h: Name, m: byte)
    requires IsMarker(m)
    ensures Decode(ip, Replaced(ip, h, m)) == Decode(ip, h)
    decreases |h|
  {
    hide Form;
    var pat := Form(ip, m);
    if |h| < |pat| {
    } else if h[..|pat|] == pat {
      var rest := h[|pat|..];
      ReplacePreservesMeaning(ip, rest, m);
      assert Replaced(ip, h, m)[1..] == Replaced(ip, rest, m);
      DecodeMarkerFree(ip, pat);
      DecodeConcat(ip, pat, rest);
      assert h == pat + rest;
    } else {
      ReplacePreservesMeaning(ip, h[1..], m);
      assert Replaced(ip, h, m)[1..] == Replaced(ip, h[1..], m);
    }
  }

  /** Encoding never changes what a name decodes to, even one that already holds marker bytes. */
  lemma EncodePreservesMeaning(ip: uint32, host: Name)
    ensures Decode(ip, Encode(ip, host)) == Decode(ip, host)
  {
    var h1 := Replaced(ip, host, FWD_DASH);
    var h2 := Replaced(ip, h1, REV_DASH);
    var h3 := Replaced(ip, h2, FWD_DOT);
    ReplacePreservesMeaning(ip, host, FWD_DASH);
    ReplacePreservesMeaning(ip, h1, REV_DASH);
    ReplacePreservesMeaning(ip, h2, FWD_DOT);
    ReplacePreservesMeaning(ip, h3, REV_DOT);
  }

  /**
    The template round trip, for every address (palindromic ones included):
    decoding undoes encoding exactly on the hostnames free of marker bytes.
    */
  lemma TemplateRoundTrip(ip: uint32, host: Name)
    ensures Decode(ip, Encode(ip, host)) == host <==> MarkerFree(host)
  {
    EncodePreservesMeaning(ip, host);
    if MarkerFree(host) {
      DecodeMarkerFree(ip, host);
    } else {
      DecodeLength(ip, host);
    }
  }

  // ----- completeness: no form of the address survives encoding -----

  /** q occurs somewhere in h. */
  predicate Contains(h: Name, q: Name) {
    |q| <= |h| && (q <= h || (h != [] && Contains(h[1..], q)))
  }

  lemma {:induction false} PrefixOfReplaced(h: Name, pat: Name, m: byte, q: Name)
    requires pat != [] && m !in q
    requires q <= ReplaceAll(h, pat, m)
    ensures q <= h
    decreases |h|
  {
    var out := ReplaceAll(h, pat, m);
    if q == [] || |h| < |pat| {
    } else {
      assert q[0] in q && q[0] == out[0];
      assert h[..|pat|] != pat;
      assert out[1..] == ReplaceAll(h[1..], pat, m);
      assert forall b | b in q[1..] :: b in q;
      PrefixOfReplaced(h[1..], pat, m, q[1..]);
    }
  }

  lemma {:induction false} ContainsInSuffix(h: Name, n: nat, q: Name)
    requires n <= |h| && Contains(h[n..], q)
    ensures Contains(h, q)
  {
    if n != 0 {
      assert h[n..] == h[1..][n - 1..];
      ContainsInSuffix(h[1..], n - 1, q);
    } else {
      assert h[n..] == h;
    }
  }

  /** A replacement creates no new occurrence of a text that lacks the marker. */
  lemma {:induction false} NothingNew(h: Name, pat: Name, m: byte, q: Name)
    requires pat != [] && q != [] && m !in q
    requires Contains(ReplaceAll(h, pat, m), q)
    ensures Contains(h, q)
    decreases |h|
  {
    var out := ReplaceAll(h, pat, m);
    if |h| < |pat| {
    } else if q <= out {
      PrefixOfReplaced(h, pat, m, q);
    } else {
      var n := if h[..|pat|] == pat then |pat| else 1;
      assert out[1..] == ReplaceAll(h[n..], pat, m);
      NothingNew(h[n..], pat, m, q);
      ContainsInSuffix(h, n, q);
    }
  }

  /** A replacement leaves no occurrence of its own pattern. */
  lemma {:induction false} PatternGone(h: Name, pat: Name, m: byte)
    requires pat != [] && m !in pat
    ensures !Contains(ReplaceAll(h, pat, m), pat)
    decreases |h|
  {
    var out := ReplaceAll(h, pat, m);
    if |h| >= |pat| {
      if pat <= out {
        PrefixOfReplaced(h, pat, m, pat);
        assert false;
      }
      var n := if h[..|pat|] == pat then |pat| else 1;
      assert out[1..] == ReplaceAll(h[n..], pat, m);
      PatternGone(h[n..], pat, m);
    }
  }

  lemma MarkerNotInForm(ip: uint32, m: byte, k: byte)
    requires IsMarker(m) && IsMarker(k)
    ensures k !in Form(ip, m)
  {
  }

  /** After encoding, none of the four forms of the address is left in the name. */
  lemma EncodeComplete(ip: uint32, host: Name, m: byte)
    requires IsMarker(m)
    ensures !Contains(Encode(ip, host), Form(ip, m))
  {
    var q := Form(ip, m);
    var h1 := Replaced(ip, host, FWD_DASH);
    var h2 := Replaced(ip, h1, REV_DASH);
    var h3 := Replaced(ip, h2, FWD_DOT);
    var h4 := Replaced(ip, h3, REV_DOT);
    if Contains(h4, q) {
      MarkerNotInForm(ip, m, m);
      MarkerNotInForm(ip, m, FWD_DASH);
      MarkerNotInForm(ip, m, REV_DASH);
      MarkerNotInForm(ip, m, FWD_DOT);
      MarkerNotInForm(ip, m, REV_DOT);
      if m == REV_DOT { PatternGone(h3, q, m); }
      NothingNew(h3, Form(ip, REV_DOT), REV_DOT, q);
      if m == FWD_DOT { PatternGone(h2, q, m); }
      NothingNew(h2, Form(ip, FWD_DOT), FWD_DOT, q);
      if m == REV_DASH { PatternGone(h1, q, m); }
      NothingNew(h1, Form(ip, REV_DASH), REV_DASH, q);
      PatternGone(host, q, m);
    }
  }
}
