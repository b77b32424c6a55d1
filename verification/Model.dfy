/**
  The record shapes and the status taxonomy shared by every layer
  (internal/model/record.go), plus the few bit operations the code relies on.
  */
module Model {
  import opened Bits

  type byte = x: int | 0 <= x < 256
  type uint16 = x: int | 0 <= x < 0x1_0000
  type uint32 = x: int | 0 <= x < 0x1_0000_0000
  type uint64 = x: int | 0 <= x < 0x1_0000_0000_0000_0000
  type int64 = x: int | -0x8000_0000_0000_0000 <= x < 0x8000_0000_0000_0000

  const U32 := 0x1_0000_0000
  const U64 := 0x1_0000_0000_0000_0000
  const I64_LIMIT := 0x8000_0000_0000_0000

  type Name = seq<byte>

  const DOT: byte := 46

  datatype Option<+T> = None | Some(value: T)

  /** The status strings of the taxonomy; `Unknown` stands for any other string. */
  datatype Status =
    | HasPtr | NoErrorEmpty | NxDomain | ServFail | Refused | Timeout | NetError | LameDelegation
    | Unknown(text: string)

  const NUM_STATUS_CODES := 8
  const CODE_HAS_PTR := 0
  const CODE_NOERROR_EMPTY := 1
  const CODE_NXDOMAIN := 2

  /** A 4-bit on-disk status field; only 0..7 are assigned. */
  type StatusCode = x: int | 0 <= x < 16

  /** Maps a status string to its compact code; unknown strings become net_error. */
  function Code(status: Status): (c: StatusCode)
    ensures c < NUM_STATUS_CODES
    ensures c == CODE_HAS_PTR <==> HasPtrStatus(status)
  {
    match status
    case HasPtr => 0
    case NoErrorEmpty => 1
    case NxDomain => 2
    case ServFail => 3
    case Refused => 4
    case Timeout => 5
    case NetError => 6
    case LameDelegation => 7
    case Unknown(_) => 6
  }

  /** Maps a compact code back to its string; unassigned codes become net_error. */
  function StatusString(c: StatusCode): (s: Status)
    ensures !s.Unknown?
    ensures c < NUM_STATUS_CODES ==> Code(s) == c
    ensures c >= NUM_STATUS_CODES ==> s == NetError
  {
    if c == 0 then HasPtr
    else if c == 1 then NoErrorEmpty
    else if c == 2 then NxDomain
    else if c == 3 then ServFail
    else if c == 4 then Refused
    else if c == 5 then Timeout
    else if c == 6 then NetError
    else if c == 7 then LameDelegation
    else NetError
  }

  predicate HasPtrStatus(status: Status) {
    status == HasPtr
  }

  /** `StatusMask.Has`: bit c of the 16-bit mask. */
  predicate MaskHas(mask: uint16, c: StatusCode) {
    Bit(mask, c)
  }

  /** One crawled address, as handed to a writer. */
  datatype Record = Record(ip: uint32, status: Status, ptr: seq<Name>, fcrdns: Option<bool>)

  /** One decoded stored record. */
  datatype Rec = Rec(ip: uint32, status: StatusCode, ptr: seq<Name>, fcChecked: bool, fcMatch: bool)
}

/** Single-bit tests and updates on unbounded words, and flag bits of a byte. */
module Bits {

  /** `w & (1 << k) != 0` */
  predicate Bit(w: nat, k: nat) {
    if k == 0 then w % 2 == 1 else Bit(w / 2, k - 1)
  }

  /** `w | (1 << k)` */
  function WithBit(w: nat, k: nat): nat {
    if k == 0 then w / 2 * 2 + 1 else WithBit(w / 2, k - 1) * 2 + w % 2
  }

  lemma {:induction false} BitOfWithBit(w: nat, k: nat, j: nat)
    ensures Bit(WithBit(w, k), j) <==> j == k || Bit(w, j)
  {
    if k != 0 && j != 0 {
      BitOfWithBit(w / 2, k - 1, j - 1);
    }
  }

  lemma {:induction false} NoBitInZero(k: nat)
    ensures !Bit(0, k)
  {
    if k != 0 {
      NoBitInZero(k - 1);
    }
  }

  /** `w & flag != 0` for a one-bit constant `flag`. */
  predicate HasFlag(w: nat, flag: nat)
    requires flag > 0
  {
    (w / flag) % 2 == 1
  }

  /** `w | flag` for a one-bit constant `flag`. */
  function SetFlag(w: nat, flag: nat): nat
    requires flag > 0
  {
    if HasFlag(w, flag) then w else w + flag
  }
}
