/**
  The payload of one block before compression: the encoding loop of
  `flushBlock` (internal/store/writer.go) and `decodeBlock`
  (internal/store/reader.go).
  */
module Block {
  import opened Model
  import opened Bits
  import opened Bytes
  import Template

  const MAX_PTR_NAMES := 32
  const FLAG_FC_CHECKED := 16
  const FLAG_FC_MATCH := 32

  // ----- what the format keeps of a record -----

  /** The PTR names that reach the file: only for has_ptr, at most 32. */
  function KeptNames(r: Record): (names: seq<Name>)
    ensures |names| <= MAX_PTR_NAMES
  {
    if !HasPtrStatus(r.status) then []
    else if |r.ptr| > MAX_PTR_NAMES then r.ptr[..MAX_PTR_NAMES]
    else r.ptr
  }

  function DecodedNames(ip: uint32, names: seq<Name>): (r: seq<Name>)
    ensures |r| == |names|
  {
    if names == [] then [] else [Template.Decode(ip, names[0])] + DecodedNames(ip, names[1..])
  }

  /** The record a reader sees for a record that was added to a writer. */
  function Stored(r: Record): Rec {
    Rec(r.ip, Code(r.status), DecodedNames(r.ip, KeptNames(r)), r.fcrdns.Some?, r.fcrdns == Some(true))
  }

  lemma {:induction false} DecodedNamesMarkerFree(ip: uint32, names: seq<Name>)
    ensures DecodedNames(ip, names) == names <==> forall n | n in names :: Template.MarkerFree(n)
  {
    hide Template.Encode, Template.Decode;
    if names != [] {
      DecodedNamesMarkerFree(ip, names[1..]);
      Template.EncodePreservesMeaning(ip, names[0]);
      Template.TemplateRoundTrip(ip, names[0]);
      assert names == [names[0]] + names[1..];
      assert DecodedNames(ip, names)[1..] == DecodedNames(ip, names[1..]);
    }
  }

  /** The kept names survive storage unchanged exactly when none holds a marker byte. */
  lemma StoredKeepsNames(r: Record)
    ensures Stored(r).ptr == KeptNames(r) <==> forall n | n in KeptNames(r) :: Template.MarkerFree(n)
  {
    DecodedNamesMarkerFree(r.ip, KeptNames(r));
  }

  /** The on-disk code of every status string; whatever is not in the taxonomy becomes net_error. */
  predicate CodeOf(status: Status, c: int) {
    match status
    case HasPtr => c == 0
    case NoErrorEmpty => c == 1
    case NxDomain => c == 2
    case ServFail => c == 3
    case Refused => c == 4
    case Timeout => c == 5
    case NetError => c == 6
    case LameDelegation => c == 7
    case Unknown(_) => c == 6
  }

  /**
    What is left of record r when it is read back as s: address, status code and
    FCrDNS outcome, and of a has_ptr record its names, cut only beyond 32.
    */
  predicate Survives(r: Record, s: Rec) {
    && s.ip == r.ip && CodeOf(r.status, s.status)
    && (s.fcChecked <==> r.fcrdns.Some?) && (s.fcMatch <==> r.fcrdns == Some(true))
    && (r.status != HasPtr ==> s.ptr == [])
    && (r.status == HasPtr ==> |s.ptr| == if |r.ptr| > 32 then 32 else |r.ptr|)
    && (r.status == HasPtr ==> forall i | 0 <= i < |s.ptr| && Template.MarkerFree(r.ptr[i]) :: s.ptr[i] == r.ptr[i])
  }

  lemma {:induction false} DecodedNameAt(ip: uint32, names: seq<Name>, i: nat)
    requires i < |names|
    ensures DecodedNames(ip, names)[i] == Template.Decode(ip, names[i])
  {
    hide Template.Decode;
    if i > 0 {
      DecodedNameAt(ip, names[1..], i - 1);
    }
  }

  lemma StoredSurvives(r: Record)
    ensures Survives(r, Stored(r))
  {
    hide Template.Decode, Template.MarkerFree, DecodedNames;
    var names := KeptNames(r);
    forall i | 0 <= i < |names| && Template.MarkerFree(r.ptr[i]) ensures DecodedNames(r.ip, names)[i] == r.ptr[i] {
      DecodedNameAt(r.ip, names, i);
      Template.DecodeMarkerFree(r.ip, r.ptr[i]);
    }
  }

  // ----- encoding -----

  function StatusFlags(r: Record): (sf: byte) {
    var s0 := Code(r.status) % 16;
    match r.fcrdns
    case None => s0
    case Some(matched) =>
      var s1 := SetFlag(s0, FLAG_FC_CHECKED);
      if matched then SetFlag(s1, FLAG_FC_MATCH) else s1
  }

  function EncodeName(ip: uint32, n: Name): seq<byte> {
    var t := Template.Encode(ip, n);
    PutUvarint(|t|) + t
  }

  function EncodeNames(ip: uint32, names: seq<Name>): seq<byte> {
    if names == [] then [] else EncodeName(ip, names[0]) + EncodeNames(ip, names[1..])
  }

  /** The address delta, with the wrap-around of a uint32 subtraction. */
  function Delta(prev: uint32, ip: uint32): uint32 {
    (ip - prev) % U32
  }

  function EncodeTail(r: Record): seq<byte> {
    if HasPtrStatus(r.status) then PutUvarint(|KeptNames(r)|) + EncodeNames(r.ip, KeptNames(r)) else []
  }

  function EncodeRec(prev: uint32, r: Record): (b: seq<byte>)
    ensures |b| > 0
  {
    PutUvarint(Delta(prev, r.ip)) + [StatusFlags(r)] + EncodeTail(r)
  }

  function EncodeBlock(prev: uint32, recs: seq<Record>): seq<byte>
    decreases recs
  {
    if recs == [] then [] else EncodeRec(prev, recs[0]) + EncodeBlock(recs[0].ip, recs[1..])
  }

  lemma EncodeBlockStep(prev: uint32, recs: seq<Record>, i: nat)
    requires i < |recs|
    ensures EncodeBlock(prev, recs[i..]) == EncodeRec(prev, recs[i]) + EncodeBlock(recs[i].ip, recs[i + 1..])
  {
    hide EncodeRec;
    assert recs[i..][0] == recs[i] && recs[i..][1..] == recs[i + 1..];
  }

  /** The encoding loop of `flushBlock`. */
  method EncodePayload(recs: seq<Record>) returns (raw: seq<byte>)
    ensures raw == EncodeBlock(0, recs)
  {
    hide EncodeRec, EncodeBlock;
    raw := [];
    var prev: uint32 := 0;
    var i := 0;
    assert recs[0..] == recs && [] + EncodeBlock(0, recs) == EncodeBlock(0, recs);
    while i < |recs|
      invariant 0 <= i <= |recs|
      invariant i == 0 ==> prev == 0
      invariant EncodeBlock(0, recs) == raw + EncodeBlock(prev, recs[i..])
    {
      EncodeBlockStep(prev, recs, i);
      var encoded := EncodeOne(i == 0, prev, recs[i]);
      assert raw + (encoded + EncodeBlock(recs[i].ip, recs[i + 1..])) == raw + encoded + EncodeBlock(recs[i].ip, recs[i + 1..]);
      raw := raw + encoded;
      prev := recs[i].ip;
      i := i + 1;
    }
    assert EncodeBlock(prev, recs[|recs|..]) == [] by { EncodeBlockEnd(prev, recs); }
  }

  lemma EncodeBlockEnd(prev: uint32, recs: seq<Record>)
    ensures EncodeBlock(prev, recs[|recs|..]) == []
  {
  }

  /** One iteration of that loop: delta, status byte, then the names of a has_ptr record. */
  method EncodeOne(first: bool, prev: uint32, r: Record) returns (raw: seq<byte>)
    requires first ==> prev == 0
    ensures raw == EncodeRec(prev, r)
  {
    hide PutUvarint, StatusFlags, EncodeNames;
    if first {
      raw := PutUvarint(r.ip);
    } else {
      raw := PutUvarint(Delta(prev, r.ip));
    }
    raw := raw + [StatusFlags(r)];
    if HasPtrStatus(r.status) {
      var names := r.ptr;
      if |names| > MAX_PTR_NAMES {
        names := names[..MAX_PTR_NAMES];
      }
      var encoded := EncodeNameList(r.ip, names);
      assert raw + PutUvarint(|names|) + encoded == raw + (PutUvarint(|names|) + encoded);
      raw := raw + PutUvarint(|names|) + encoded;
    }
  }

  lemma EncodeNamesStep(ip: uint32, names: seq<Name>, j: nat)
    requires j < |names|
    ensures EncodeNames(ip, names[j..]) == EncodeName(ip, names[j]) + EncodeNames(ip, names[j + 1..])
  {
    hide EncodeName;
    assert names[j..][0] == names[j] && names[j..][1..] == names[j + 1..];
  }

  lemma EncodeNoNames(ip: uint32)
    ensures EncodeNames(ip, []) == []
  {
  }

  method EncodeNameList(ip: uint32, names: seq<Name>) returns (raw: seq<byte>)
    ensures raw == EncodeNames(ip, names)
  {
    hide Template.Encode, Template.Decode, PutUvarint, EncodeNames;
    raw := [];
    var j := 0;
    assert names[0..] == names && [] + EncodeNames(ip, names) == EncodeNames(ip, names);
    while j < |names|
      invariant 0 <= j <= |names|
      invariant EncodeNames(ip, names) == raw + EncodeNames(ip, names[j..])
    {
      var t := Template.Encode(ip, names[j]);
      EncodeNamesStep(ip, names, j);
      ghost var rest := EncodeNames(ip, names[j + 1..]);
      assert raw + (PutUvarint(|t|) + t + rest) == raw + PutUvarint(|t|) + t + rest;
      raw := raw + PutUvarint(|t|) + t;
      j := j + 1;
    }
    assert names[|names|..] == [];
    EncodeNoNames(ip);
  }

  // ----- decoding -----

  /** Ways a block can be rejected; `SliceFault` is the run-time fault of a length beyond the int range. */
  datatype BlockError = BadDelta | MissingStatus | BadCount | BadNameLen | NameOverruns | SliceFault

  datatype Decoded<+T> = Got(value: T, off: nat) | Bad(err: BlockError)

  function DecodeName(raw: seq<byte>, off: nat, ip: uint32): (r: Decoded<Name>)
    requires off <= |raw|
    ensures r.Got? ==> off < r.off <= |raw|
  {
    match Uvarint(raw[off..])
    case Value(l, n) =>
      var at := off + n;
      if at + l >= I64_LIMIT then Bad(SliceFault)
      else if at + l > |raw| then Bad(NameOverruns)
      else Got(Template.Decode(ip, raw[at..at + l]), at + l)
    case _ => Bad(BadNameLen)
  }

  function DecodeNames(raw: seq<byte>, off: nat, ip: uint32, count: nat): (r: Decoded<seq<Name>>)
    requires off <= |raw|
    ensures r.Got? ==> off <= r.off <= |raw|
    decreases count
  {
    if count == 0 then Got([], off)
    else
      match DecodeName(raw, off, ip)
      case Bad(e) => Bad(e)
      case Got(name, off1) =>
        match DecodeNames(raw, off1, ip, count - 1)
        case Bad(e) => Bad(e)
        case Got(names, off2) => Got([name] + names, off2)
  }

  function DecodeTail(raw: seq<byte>, off: nat, ip: uint32, status: StatusCode): (r: Decoded<seq<Name>>)
    requires off <= |raw|
    ensures r.Got? ==> off <= r.off <= |raw|
  {
    if status != CODE_HAS_PTR then Got([], off)
    else
      match Uvarint(raw[off..])
      case Value(count, n) => DecodeNames(raw, off + n, ip, count)
      case _ => Bad(BadCount)
  }

  function DecodeRec(raw: seq<byte>, off: nat, prev: uint32): (r: Decoded<Rec>)
    requires off <= |raw|
    ensures r.Got? ==> off < r.off <= |raw|
  {
    match Uvarint(raw[off..])
    case Value(delta, n) =>
      var ip := (prev + delta) % U32;
      if off + n >= |raw| then Bad(MissingStatus)
      else
        var sf := raw[off + n];
        (match DecodeTail(raw, off + n + 1, ip, sf % 16)
         case Bad(e) => Bad(e)
         case Got(names, off') =>
           Got(Rec(ip, sf % 16, names, HasFlag(sf, FLAG_FC_CHECKED), HasFlag(sf, FLAG_FC_MATCH)), off'))
    case _ => Bad(BadDelta)
  }

  /** The records handed to the callback, and why decoding stopped. */
  datatype Payload = Payload(recs: seq<Rec>, err: Option<BlockError>)

  function DecodeFrom(raw: seq<byte>, off: nat, prev: uint32): Payload
    requires off <= |raw|
    decreases |raw| - off
  {
    if off == |raw| then Payload([], None)
    else
      match DecodeRec(raw, off, prev)
      case Bad(e) => Payload([], Some(e))
      case Got(rec, off') =>
        var rest := DecodeFrom(raw, off', rec.ip);
        Payload([rec] + rest.recs, rest.err)
  }

  /** `decodeBlock`: the loop over records, advancing `off` and `prev`. */
  method DecodeBlock(raw: seq<byte>) returns (recs: seq<Rec>, err: Option<BlockError>)
    ensures Payload(recs, err) == DecodeFrom(raw, 0, 0)
  {
    hide DecodeRec;
    recs, err := [], None;
    var prev: uint32 := 0;
    var first := true;
    var off := 0;
    while off < |raw|
      invariant 0 <= off <= |raw|
      invariant first ==> prev == 0
      invariant var rest := DecodeFrom(raw, off, prev);
                DecodeFrom(raw, 0, 0) == Payload(recs + rest.recs, rest.err)
      decreases |raw| - off
    {
      var d := ReadRec(raw, off, prev, first);
      if d.Bad? {
        return recs, Some(d.err);
      }
      ghost var rest := DecodeFrom(raw, d.off, d.value.ip).recs;
      assert recs + ([d.value] + rest) == recs + [d.value] + rest;
      recs := recs + [d.value];
      prev, first, off := d.value.ip, false, d.off;
    }
  }

  /** One iteration of that loop. */
  method ReadRec(raw: seq<byte>, start: nat, prev: uint32, first: bool) returns (d: Decoded<Rec>)
    requires start < |raw|
    requires first ==> prev == 0
    ensures d == DecodeRec(raw, start, prev)
  {
    hide Uvarint, DecodeNames;
    match Uvarint(raw[start..]) {
      case Value(delta, n) =>
        var ip: uint32 := if first then delta % U32 else (prev + delta % U32) % U32;
        assert ip == (prev + delta) % U32;
        var off := start + n;
        if off >= |raw| {
          return Bad(MissingStatus);
        }
        var sf := raw[off];
        off := off + 1;
        var status: StatusCode := sf % 16;
        var names := [];
        if status == CODE_HAS_PTR {
          match Uvarint(raw[off..]) {
            case Value(count, m) =>
              var parsed := ReadNames(raw, off + m, ip, count);
              if parsed.Bad? {
                return Bad(parsed.err);
              }
              names, off := parsed.value, parsed.off;
            case _ => return Bad(BadCount);
          }
        }
        d := Got(Rec(ip, status, names, HasFlag(sf, FLAG_FC_CHECKED), HasFlag(sf, FLAG_FC_MATCH)), off);
      case _ => d := Bad(BadDelta);
    }
  }

  ghost function Prepend(names: seq<Name>, d: Decoded<seq<Name>>): Decoded<seq<Name>> {
    match d
    case Bad(e) => Bad(e)
    case Got(rest, off) => Got(names + rest, off)
  }

  lemma PrependNothing(d: Decoded<seq<Name>>)
    ensures Prepend([], d) == d
  {
    if d.Got? {
      assert [] + d.value == d.value;
    }
  }

  /** The inner loop of `decodeBlock` over the names of one record. */
  method ReadNames(raw: seq<byte>, start: nat, ip: uint32, count: nat) returns (r: Decoded<seq<Name>>)
    requires start <= |raw|
    ensures r == DecodeNames(raw, start, ip, count)
  {
    hide Uvarint, Template.Decode;
    var names: seq<Name> := [];
    var off := start;
    var i := 0;
    PrependNothing(DecodeNames(raw, start, ip, count));
    while i < count
      invariant 0 <= i <= count && start <= off <= |raw|
      invariant DecodeNames(raw, start, ip, count) == Prepend(names, DecodeNames(raw, off, ip, count - i))
    {
      match Uvarint(raw[off..]) {
        case Value(l, n) =>
          if off + n + l >= I64_LIMIT {
            return Bad(SliceFault);
          }
          if off + n + l > |raw| {
            return Bad(NameOverruns);
          }
          var name := Template.Decode(ip, raw[off + n..off + n + l]);
          ghost var rest := DecodeNames(raw, off + n + l, ip, count - i - 1);
          assert rest.Got? ==> names + ([name] + rest.value) == names + [name] + rest.value;
          off := off + n + l;
          names := names + [name];
        case _ => return Bad(BadNameLen);
      }
      i := i + 1;
    }
    assert names + [] == names;
    r := Got(names, off);
  }

  // ----- the round trip of one block -----

  lemma NameRoundTrip(raw: seq<byte>, off: nat, ip: uint32, n: Name, rest: seq<byte>)
    requires off <= |raw| < I64_LIMIT
    requires raw[off..] == EncodeName(ip, n) + rest
    ensures DecodeName(raw, off, ip) == Got(Template.Decode(ip, n), off + |EncodeName(ip, n)|)
  {
    hide Template.Encode, Template.Decode, PutUvarint, Uvarint;
    var t := Template.Encode(ip, n);
    var w := PutUvarint(|t|);
    assert raw[off..] == w + (t + rest);
    UvarintRoundTrip(|t|, t + rest);
    assert raw[off + |w|..off + |w| + |t|] == raw[off..][|w|..|w| + |t|] == t;
    Template.EncodePreservesMeaning(ip, n);
  }

  lemma DecodeNamesCons(raw: seq<byte>, off: nat, ip: uint32, count: nat, name: Name, off1: nat)
    requires off <= |raw| && count > 0 && DecodeName(raw, off, ip) == Got(name, off1)
    ensures off1 <= |raw|
    ensures DecodeNames(raw, off, ip, count) == Prepend([name], DecodeNames(raw, off1, ip, count - 1))
  {
    hide DecodeName;
  }

  lemma NamesCons(ip: uint32, names: seq<Name>)
    requires names != []
    ensures EncodeNames(ip, names) == EncodeName(ip, names[0]) + EncodeNames(ip, names[1..])
    ensures DecodedNames(ip, names) == [Template.Decode(ip, names[0])] + DecodedNames(ip, names[1..])
  {
    hide EncodeName, Template.Decode;
  }

  lemma {:induction false} NamesRoundTrip(raw: seq<byte>, off: nat, ip: uint32, names: seq<Name>, rest: seq<byte>)
    requires off <= |raw| < I64_LIMIT
    requires raw[off..] == EncodeNames(ip, names) + rest
    ensures DecodeNames(raw, off, ip, |names|)
         == Got(DecodedNames(ip, names), off + |EncodeNames(ip, names)|)
    decreases names
  {
    hide EncodeName, DecodeName, Template.Decode, EncodeNames, DecodeNames, DecodedNames;
    if names == [] {
      NoNamesRoundTrip(raw, off, ip);
    } else {
      var e := EncodeName(ip, names[0]);
      var more := EncodeNames(ip, names[1..]) + rest;
      NamesCons(ip, names);
      assert raw[off..] == e + more;
      NameRoundTrip(raw, off, ip, names[0], more);
      assert raw[off + |e|..] == raw[off..][|e|..] == more;
      NamesRoundTrip(raw, off + |e|, ip, names[1..], rest);
      DecodeNamesCons(raw, off, ip, |names|, Template.Decode(ip, names[0]), off + |e|);
    }
  }

  lemma NoNamesRoundTrip(raw: seq<byte>, off: nat, ip: uint32)
    requires off <= |raw|
    ensures EncodeNames(ip, []) == [] && DecodedNames(ip, []) == [] && DecodeNames(raw, off, ip, 0) == Got([], off)
  {
  }

  lemma FlagsRoundTrip(r: Record)
    ensures StatusFlags(r) % 16 == Code(r.status)
    ensures HasFlag(StatusFlags(r), FLAG_FC_CHECKED) == r.fcrdns.Some?
    ensures HasFlag(StatusFlags(r), FLAG_FC_MATCH) == (r.fcrdns == Some(true))
  {
  }

  lemma TailRoundTrip(raw: seq<byte>, off: nat, r: Record, rest: seq<byte>)
    requires off <= |raw| < I64_LIMIT
    requires raw[off..] == EncodeTail(r) + rest
    ensures DecodeTail(raw, off, r.ip, Code(r.status)) == Got(Stored(r).ptr, off + |EncodeTail(r)|)
  {
    hide PutUvarint, Uvarint, EncodeNames, DecodeNames, DecodedNames;
    var names := KeptNames(r);
    if HasPtrStatus(r.status) {
      var w := PutUvarint(|names|);
      var more := EncodeNames(r.ip, names) + rest;
      assert raw[off..] == w + more;
      UvarintRoundTrip(|names|, more);
      assert raw[off + |w|..] == raw[off..][|w|..] == more;
      NamesRoundTrip(raw, off + |w|, r.ip, names, rest);
    }
  }

  lemma DeltaRoundTrip(prev: uint32, ip: uint32)
    ensures (prev + Delta(prev, ip)) % U32 == ip
  {
  }

  lemma RecRoundTrip(raw: seq<byte>, off: nat, prev: uint32, r: Record, rest: seq<byte>)
    requires off <= |raw| < I64_LIMIT
    requires raw[off..] == EncodeRec(prev, r) + rest
    ensures DecodeRec(raw, off, prev) == Got(Stored(r), off + |EncodeRec(prev, r)|)
  {
    hide PutUvarint, Uvarint, EncodeTail, DecodeTail, DecodedNames, Code, StatusFlags, HasFlag, Delta;
    var w := PutUvarint(Delta(prev, r.ip));
    var tail := EncodeTail(r);
    var afterDelta := [StatusFlags(r)] + tail + rest;
    assert raw[off..] == w + afterDelta;
    UvarintRoundTrip(Delta(prev, r.ip), afterDelta);
    DeltaRoundTrip(prev, r.ip);
    FlagsRoundTrip(r);
    assert raw[off + |w|] == raw[off..][|w|] == StatusFlags(r);
    assert raw[off + |w| + 1..] == raw[off..][|w| + 1..] == tail + rest;
    TailRoundTrip(raw, off + |w| + 1, r, rest);
  }

  function StoredAll(recs: seq<Record>): (s: seq<Rec>)
    ensures |s| == |recs|
  {
    if recs == [] then [] else [Stored(recs[0])] + StoredAll(recs[1..])
  }

  lemma {:induction false} BlockRoundTripFrom(raw: seq<byte>, off: nat, prev: uint32, recs: seq<Record>)
    requires off <= |raw| < I64_LIMIT
    requires raw[off..] == EncodeBlock(prev, recs)
    ensures DecodeFrom(raw, off, prev) == Payload(StoredAll(recs), None)
    decreases |recs|
  {
    hide EncodeRec, DecodeRec, DecodedNames, Code;
    if recs != [] {
      var e := EncodeRec(prev, recs[0]);
      var rest := EncodeBlock(recs[0].ip, recs[1..]);
      RecRoundTrip(raw, off, prev, recs[0], rest);
      assert raw[off + |e|..] == raw[off..][|e|..] == rest;
      BlockRoundTripFrom(raw, off + |e|, recs[0].ip, recs[1..]);
    }
  }

  /** Decoding an encoded block yields exactly the stored form of every record, in order. */
  lemma BlockRoundTrip(recs: seq<Record>)
    requires |EncodeBlock(0, recs)| < I64_LIMIT
    ensures DecodeFrom(EncodeBlock(0, recs), 0, 0) == Payload(StoredAll(recs), None)
  {
    hide Template.Encode, Template.Decode;
    var raw := EncodeBlock(0, recs);
    assert raw[0..] == raw;
    BlockRoundTripFrom(raw, 0, 0, recs);
  }

  // ----- sizes -----

  /** The escaped text of a 255-octet name (section 2.3.4 of RFC 1035). */
  const MAX_NAME_TEXT := 1004

  predicate BoundedNames(r: Record) {
    forall n | n in r.ptr :: |n| <= MAX_NAME_TEXT
  }

  lemma {:induction false} EncodeNamesSize(ip: uint32, names: seq<Name>)
    requires forall n | n in names :: |n| <= MAX_NAME_TEXT
    ensures |EncodeNames(ip, names)| <= |names| * (2 + MAX_NAME_TEXT)
  {
    hide Template.Encode, PutUvarint;
    if names != [] {
      UvarintWidth(|Template.Encode(ip, names[0])|);
      assert names[0] in names;
      EncodeNamesSize(ip, names[1..]);
    }
  }

  const MAX_RECORD_BYTES := 5 + 1 + 1 + MAX_PTR_NAMES * (2 + MAX_NAME_TEXT)

  lemma EncodeRecSize(prev: uint32, r: Record)
    requires BoundedNames(r)
    ensures |EncodeRec(prev, r)| <= MAX_RECORD_BYTES
  {
    hide EncodeNames, PutUvarint, StatusFlags;
    UvarintWidth(Delta(prev, r.ip));
    UvarintWidth(|KeptNames(r)|);
    EncodeNamesSize(r.ip, KeptNames(r));
  }

  lemma {:induction false} EncodeBlockSize(prev: uint32, recs: seq<Record>)
    requires forall r | r in recs :: BoundedNames(r)
    ensures |EncodeBlock(prev, recs)| <= |recs| * MAX_RECORD_BYTES
    decreases recs
  {
    hide EncodeRec;
    if recs != [] {
      assert recs[0] in recs;
      EncodeRecSize(prev, recs[0]);
      EncodeBlockSize(recs[0].ip, recs[1..]);
    }
  }
}
