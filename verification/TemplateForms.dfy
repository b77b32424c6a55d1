/** Which texts the four template markers stand for, stated on octets and digits alone. */
module TemplateForms {
  import opened Model
  import opened Template

  predicate IsDigit(b: byte) {
    48 <= b <= 57
  }

  predicate NoDigits(s: Name) {
    forall i | 0 <= i < |s| :: !IsDigit(s[i])
  }

  /** Four decimal numbers joined by a separator. */
  function Text(w: byte, x: byte, y: byte, z: byte, sep: byte): Name {
    Itoa(w) + [sep] + Itoa(x) + [sep] + Itoa(y) + [sep] + Itoa(z)
  }

  /** The address with these octets, most significant first. */
  function Address(a: byte, b: byte, c: byte, d: byte): (ip: uint32)
  {
    var x: int, y: int, z: int, w: int := a, b, c, d;
    ((x * 256 + y) * 256 + z) * 256 + w
  }

  lemma LowDigit(high: nat, low: byte)
    ensures (high * 256 + low) / 256 == high && (high * 256 + low) % 256 == low
  {
  }

  lemma Shifts(ip: nat)
    ensures ip / 0x1_0000 == ip / 256 / 256 && ip / 0x100_0000 == ip / 256 / 256 / 256
  {
  }

  lemma AddressOctets(a: byte, b: byte, c: byte, d: byte)
    ensures Octets(Address(a, b, c, d)) == (a, b, c, d)
  {
    var x: int, y: int, z: int := a, b, c;
    var p := x * 256 + y;
    var q := p * 256 + z;
    LowDigit(x, b);
    LowDigit(p, c);
    LowDigit(q, d);
    Shifts(q * 256 + d);
  }

  lemma FormsAreTexts(a: byte, b: byte, c: byte, d: byte)
    ensures var ip := Address(a, b, c, d);
            && Form(ip, 1) == Text(a, b, c, d, 45) && Form(ip, 2) == Text(d, c, b, a, 45)
            && Form(ip, 3) == Text(a, b, c, d, 46) && Form(ip, 4) == Text(d, c, b, a, 46)
  {
    hide Itoa, Address, Octets;
    AddressOctets(a, b, c, d);
  }

  /** Every text of an address has the same length, begins and ends in a digit, and shows its separator. */
  lemma TextShape(ip: uint32, m: byte)
    requires IsMarker(m)
    ensures |Form(ip, m)| == |Form(ip, 1)| >= 7
    ensures IsDigit(Form(ip, m)[0]) && IsDigit(Form(ip, m)[|Form(ip, m)| - 1])
    ensures (45 in Form(ip, m) <==> m <= 2) && (46 in Form(ip, m) <==> m > 2)
  {
    hide Itoa;
    var (a, b, c, d) := Octets(ip);
    forall v: byte ensures IsDigit(Itoa(v)[0]) && IsDigit(Itoa(v)[|Itoa(v)| - 1]) && 45 !in Itoa(v) && 46 !in Itoa(v) {
      DigitsOnly(v);
    }
    if m <= 2 {
      assert Form(ip, m)[|Itoa(if m == 1 then a else d)|] == 45;
    } else {
      assert Form(ip, m)[|Itoa(if m == 3 then a else d)|] == 46;
    }
  }

  lemma DigitsOnly(v: byte)
    ensures IsDigit(Itoa(v)[0]) && IsDigit(Itoa(v)[|Itoa(v)| - 1]) && 45 !in Itoa(v) && 46 !in Itoa(v)
  {
    hide Decimal;
  }

  // ----- a replacement in a name with no other digits -----

  lemma {:induction false} NothingToReplace(h: Name, pat: Name, m: byte)
    requires pat != [] && IsDigit(pat[0]) && NoDigits(h)
    ensures ReplaceAll(h, pat, m) == h
    decreases |h|
  {
    if |h| >= |pat| {
      assert h[..|pat|][0] == h[0];
      assert h == [h[0]] + h[1..];
      NothingToReplace(h[1..], pat, m);
    }
  }

  lemma NotHere(h: Name, pat: Name, i: nat)
    requires 0 < |pat| <= |h| && i < |pat| && h[i] != pat[i]
    ensures h[..|pat|] != pat
  {
    assert h[..|pat|][i] == h[i];
  }

  /** A pattern that ends in a digit does not occur in what follows the first byte of an equally long text. */
  lemma {:induction false} OnlyAtStart(h: Name, pat: Name, m: byte, post: Name, n: nat)
    requires pat != [] && IsDigit(pat[|pat| - 1]) && IsDigit(pat[0])
    requires n < |pat| && |h| == n + |post| && h[n..] == post && NoDigits(post)
    ensures ReplaceAll(h, pat, m) == h
    decreases n
  {
    if n == 0 {
      assert h == post;
      NothingToReplace(h, pat, m);
    } else if |h| >= |pat| {
      assert h[|pat| - 1] == post[|pat| - 1 - n];
      NotHere(h, pat, |pat| - 1);
      assert h == [h[0]] + h[1..];
      OnlyAtStart(h[1..], pat, m, post, n - 1);
    }
  }

  lemma ReplaceStep(h: Name, pat: Name, m: byte)
    requires 0 < |pat| <= |h| && h[0] != pat[0]
    ensures ReplaceAll(h, pat, m) == [h[0]] + ReplaceAll(h[1..], pat, m)
  {
    NotHere(h, pat, 0);
  }

  lemma ReplacedAtStart(text: Name, post: Name, pat: Name, m: byte)
    requires NoDigits(post) && text != [] && |pat| == |text|
    requires IsDigit(pat[0]) && IsDigit(pat[|pat| - 1])
    ensures ReplaceAll(text + post, pat, m) == if pat == text then [m] + post else text + post
  {
    hide NoDigits;
    var h := text + post;
    assert h[..|pat|] == text && h[|pat|..] == post;
    if pat == text {
      NothingToReplace(post, pat, m);
    } else {
      assert h[1..][|text| - 1..] == post;
      OnlyAtStart(h[1..], pat, m, post, |text| - 1);
      assert h == [h[0]] + h[1..];
    }
  }

  lemma TailNoDigits(s: Name)
    requires NoDigits(s) && s != []
    ensures !IsDigit(s[0]) && NoDigits(s[1..])
  {
  }

  /** In a name with no other digits, only the text itself is replaced, and only by its own marker. */
  lemma {:induction false} ReplacedInContext(pre: Name, text: Name, post: Name, pat: Name, m: byte)
    requires NoDigits(pre) && NoDigits(post) && text != [] && |pat| == |text|
    requires IsDigit(pat[0]) && IsDigit(pat[|pat| - 1])
    ensures ReplaceAll(pre + text + post, pat, m) == if pat == text then pre + [m] + post else pre + text + post
    decreases |pre|
  {
    hide NoDigits, ReplaceAll;
    var h := pre + text + post;
    if pre == [] {
      assert h == text + post && pre + [m] + post == [m] + post;
      ReplacedAtStart(text, post, pat, m);
    } else {
      assert !IsDigit(pre[0]) && NoDigits(pre[1..]) by { TailNoDigits(pre); }
      assert h[1..] == pre[1..] + text + post && h[0] == pre[0];
      ReplaceStep(h, pat, m);
      ReplacedInContext(pre[1..], text, post, pat, m);
      assert pre == [pre[0]] + pre[1..];
      assert [pre[0]] + (pre[1..] + [m] + post) == pre + [m] + post;
      assert [pre[0]] + (pre[1..] + text + post) == pre + text + post;
    }
  }

  lemma MarkedStays(pre: Name, k: byte, post: Name, pat: Name, m: byte)
    requires NoDigits(pre) && NoDigits(post) && IsMarker(k) && pat != [] && IsDigit(pat[0])
    ensures ReplaceAll(pre + [k] + post, pat, m) == pre + [k] + post
  {
    NothingToReplace(pre + [k] + post, pat, m);
  }

  /** The first of the four markers, in the order of the replacements, whose text this is. */
  function MarkerOf(ip: uint32, text: Name): (m: Option<byte>)
    ensures m.Some? ==> IsMarker(m.value)
  {
    if text == Form(ip, 1) then Some(1)
    else if text == Form(ip, 2) then Some(2)
    else if text == Form(ip, 3) then Some(3)
    else if text == Form(ip, 4) then Some(4)
    else None
  }

  lemma EncodedInContext(ip: uint32, pre: Name, text: Name, post: Name)
    requires NoDigits(pre) && NoDigits(post) && MarkerOf(ip, text).Some?
    ensures Encode(ip, pre + text + post) == pre + [MarkerOf(ip, text).value] + post
  {
    hide Form, ReplaceAll, NoDigits;
    var k := MarkerOf(ip, text).value;
    forall m: byte | IsMarker(m)
      ensures |Form(ip, m)| == |text| && IsDigit(Form(ip, m)[0]) && IsDigit(Form(ip, m)[|Form(ip, m)| - 1])
    {
      TextShape(ip, m);
      TextShape(ip, k);
    }
    forall m: byte | IsMarker(m)
      ensures Replaced(ip, pre + text + post, m)
           == if text == Form(ip, m) then pre + [m] + post else pre + text + post
      ensures Replaced(ip, pre + [k] + post, m) == pre + [k] + post
    {
      ReplacedInContext(pre, text, post, Form(ip, m), m);
      MarkedStays(pre, k, post, Form(ip, m), m);
    }
  }

  /**
    The markers mean what the format says: in a name with no other digits, the
    octets joined by "-" become 1 forward and 2 reversed, joined by "." 3 and 4. An
    address that reads the same both ways takes the forward marker.
    */
  lemma MarkersMean(a: byte, b: byte, c: byte, d: byte, pre: Name, post: Name)
    requires NoDigits(pre) && NoDigits(post)
    ensures var ip := Address(a, b, c, d);
            && Encode(ip, pre + Text(a, b, c, d, 45) + post) == pre + [1] + post
            && (Text(d, c, b, a, 45) != Text(a, b, c, d, 45) ==>
                  Encode(ip, pre + Text(d, c, b, a, 45) + post) == pre + [2] + post)
            && Encode(ip, pre + Text(a, b, c, d, 46) + post) == pre + [3] + post
            && (Text(d, c, b, a, 46) != Text(a, b, c, d, 46) ==>
                  Encode(ip, pre + Text(d, c, b, a, 46) + post) == pre + [4] + post)
  {
    hide Text, Form, Encode, NoDigits;
    var ip := Address(a, b, c, d);
    FormsAreTexts(a, b, c, d);
    forall m: byte | IsMarker(m)
      ensures MarkerOf(ip, Form(ip, m)).Some?
      ensures Encode(ip, pre + Form(ip, m) + post) == pre + [MarkerOf(ip, Form(ip, m)).value] + post
    {
      EncodedInContext(ip, pre, Form(ip, m), post);
    }
    forall m: byte | IsMarker(m) ensures (45 in Form(ip, m) <==> m <= 2) && (46 in Form(ip, m) <==> m > 2) {
      TextShape(ip, m);
    }
  }

  /** And back: each marker, wherever it stands, is read as that text. */
  lemma MarkersRead(a: byte, b: byte, c: byte, d: byte, pre: Name, post: Name)
    requires MarkerFree(pre) && MarkerFree(post)
    ensures var ip := Address(a, b, c, d);
            && Decode(ip, pre + [1] + post) == pre + Text(a, b, c, d, 45) + post
            && Decode(ip, pre + [2] + post) == pre + Text(d, c, b, a, 45) + post
            && Decode(ip, pre + [3] + post) == pre + Text(a, b, c, d, 46) + post
            && Decode(ip, pre + [4] + post) == pre + Text(d, c, b, a, 46) + post
  {
    hide Text, Form, MarkerFree;
    var ip := Address(a, b, c, d);
    FormsAreTexts(a, b, c, d);
    forall m: byte | IsMarker(m) ensures Decode(ip, pre + [m] + post) == pre + Form(ip, m) + post {
      DecodeOneMarker(ip, m);
      DecodeConcat(ip, pre, [m]);
      DecodeConcat(ip, pre + [m], post);
      DecodeMarkerFree(ip, pre);
      DecodeMarkerFree(ip, post);
    }
  }

  lemma DecodeOneMarker(ip: uint32, m: byte)
    requires IsMarker(m)
    ensures Decode(ip, [m]) == Form(ip, m)
  {
    hide Form;
    assert [m][1..] == [];
  }
}
