/**
  Fixed-width little-endian integers and base-128 varints, as package
  encoding/binary reads and writes them.
  */
module Bytes {
  import opened Model

  // ----- little-endian integers -----

  function Pow256(k: nat): (p: nat)
    ensures p > 0
  {
    if k == 0 then 1 else 256 * Pow256(k - 1)
  }

  /** The low k bytes of v, least significant first. */
  function PutLE(v: nat, k: nat): (b: seq<byte>)
    ensures |b| == k
  {
    if k == 0 then [] else [v % 256] + PutLE(v / 256, k - 1)
  }

  function GetLE(b: seq<byte>): nat {
    if b == [] then 0 else b[0] + 256 * GetLE(b[1..])
  }

  lemma {:induction false} LERoundTrip(v: nat, k: nat)
    requires v < Pow256(k)
    ensures GetLE(PutLE(v, k)) == v
  {
    if k != 0 {
      LERoundTrip(v / 256, k - 1);
      assert PutLE(v, k)[1..] == PutLE(v / 256, k - 1);
    }
  }

  lemma {:induction false} GetLEBound(b: seq<byte>)
    ensures GetLE(b) < Pow256(|b|)
  {
    if b != [] {
      GetLEBound(b[1..]);
    }
  }

  lemma Powers()
    ensures Pow256(2) == 0x1_0000
    ensures Pow256(4) == U32
    ensures Pow256(8) == U64
  {
  }

  // ----- varints -----

  const MAX_VARINT_LEN := 10

  /** `binary.PutUvarint` */
  function PutUvarint(v: nat): (b: seq<byte>)
    ensures |b| > 0
  {
    if v < 128 then [v] else [128 + v % 128] + PutUvarint(v / 128)
  }

  /** What `binary.Uvarint` reports: a value and its width, or n == 0, or n < 0. */
  datatype Varint = Value(v: nat, n: nat) | TooShort | Overflow

  /** `binary.Uvarint` after i continuation bytes have been consumed. */
  function UvarintFrom(b: seq<byte>, i: nat): (r: Varint)
    ensures r.Value? ==> 0 < r.n <= |b|
    decreases |b|
  {
    if b == [] then TooShort
    else if i == MAX_VARINT_LEN then Overflow
    else if b[0] < 128 then
      if i == MAX_VARINT_LEN - 1 && b[0] > 1 then Overflow else Value(b[0], 1)
    else
      match UvarintFrom(b[1..], i + 1)
      case Value(v, n) => Value(b[0] - 128 + 128 * v, n + 1)
      case e => e
  }

  function Uvarint(b: seq<byte>): (r: Varint)
    ensures r.Value? ==> 0 < r.n <= |b|
  {
    UvarintFrom(b, 0)
  }

  /** How large a value may still be when i bytes of a 64-bit varint are spent. */
  function Room(i: nat): (p: nat)
    requires i < MAX_VARINT_LEN
    decreases MAX_VARINT_LEN - i
  {
    if i == MAX_VARINT_LEN - 1 then 2 else 128 * Room(i + 1)
  }

  lemma RoomAtStart()
    ensures Room(0) == U64
  {
    assert Room(9) == 2;
    assert Room(8) == 256;
    assert Room(7) == 128 * 256;
    assert Room(6) == 128 * 128 * 256;
    assert Room(5) == 0x2000_0000;
    assert Room(4) == 128 * 0x2000_0000;
    assert Room(3) == 0x8_0000_0000_00;
    assert Room(2) == 128 * 0x8_0000_0000_00;
    assert Room(1) == 128 * 128 * 0x8_0000_0000_00;
  }

  lemma {:induction false} UvarintFromRoundTrip(v: nat, i: nat, rest: seq<byte>)
    requires i < MAX_VARINT_LEN && v < Room(i)
    ensures UvarintFrom(PutUvarint(v) + rest, i) == Value(v, |PutUvarint(v)|)
  {
    var b := PutUvarint(v) + rest;
    if v >= 128 {
      assert b[1..] == PutUvarint(v / 128) + rest;
      UvarintFromRoundTrip(v / 128, i + 1, rest);
    }
  }

  /** Every 64-bit value written is read back, with its exact width, whatever follows it. */
  lemma UvarintRoundTrip(v: nat, rest: seq<byte>)
    requires v < U64
    ensures Uvarint(PutUvarint(v) + rest) == Value(v, |PutUvarint(v)|)
  {
    RoomAtStart();
    UvarintFromRoundTrip(v, 0, rest);
  }

  /** An address delta takes at most 5 bytes, a count below 128 one, a short length two. */
  lemma UvarintWidth(v: nat)
    ensures v < U32 ==> |PutUvarint(v)| <= 5
    ensures v < 128 * 128 ==> |PutUvarint(v)| <= 2
    ensures v < 128 ==> |PutUvarint(v)| == 1
  {
    if v < U32 {
      var a := v / 128;
      var b := a / 128;
      var c := b / 128;
      var d := c / 128;
      assert d < 16;
      assert |PutUvarint(d)| <= 1;
      assert |PutUvarint(c)| <= 2;
      assert |PutUvarint(b)| <= 3;
      assert |PutUvarint(a)| <= 4;
    }
  }
}
