/** The merge rule on records as they are read from files, without the code that applies it. */
module MergeRule {
  import opened Model
  import opened Block
  import opened Names
  import opened MergeSpec
  import Template

  /**
    A record as the writer stores observations: an assigned code, one to 32 names
    exactly for has_ptr, no NUL and no marker byte in a name, and an FCrDNS match only
    where it was checked.
    */
  predicate WellFormed(r: Rec) {
    && r.status < 8
    && |r.ptr| <= 32 && (r.ptr != [] <==> r.status == 0)
    && (forall n | n in r.ptr :: NulFree(n) && Template.MarkerFree(n))
    && (r.fcMatch ==> r.fcChecked)
  }

  /**
    The record that represents an address after the merge: the new one if the old
    status was re-crawled and either the new one is definitive (has_ptr 0,
    noerror_empty 1, nxdomain 2) or there was no PTR to lose; otherwise the old one,
    also when the re-crawl has not seen the address.
    */
  function Winner(mask: uint16, o: Rec, n: Option<Rec>): Rec {
    if MaskHas(mask, o.status) && n.Some? && (n.value.status <= 2 || o.status != 0) then n.value else o
  }

  lemma KeptWhole(r: Rec)
    requires WellFormed(r)
    ensures Stored(ToRecord(r)) == r
  {
    hide Template.MarkerFree, DecodedNames, NulFree;
    DecodedNamesMarkerFree(r.ip, r.ptr);
    NoNamesDecoded(r.ip);
  }

  lemma NoNamesDecoded(ip: uint32)
    ensures DecodedNames(ip, []) == []
  {
  }

  lemma TakenWhole(n: Rec)
    requires WellFormed(n)
    ensures Stored(FromNew(n)) == n
  {
    hide Template.MarkerFree, DecodedNames, NulFree, Rejoined;
    RejoinedFaithful(n.ptr);
    DecodedNamesMarkerFree(n.ip, n.ptr);
    NoNamesDecoded(n.ip);
  }

  /** One address: the stored result is one of the two records, with names and FCrDNS flags, chosen by the rule. */
  lemma RuleOnRecords(mask: uint16, o: Rec, n: Option<Rec>)
    requires WellFormed(o) && (n.Some? ==> WellFormed(n.value))
    ensures Stored(MergedRecord(mask, o, n)) == Winner(mask, o, n)
  {
    hide Stored, ToRecord, FromNew, MaskHas, WellFormed;
    KeptWhole(o);
    if n.Some? {
      TakenWhole(n.value);
    }
  }

  /** What the writer stores is well-formed, but for a has_ptr record without names or with a NUL in one. */
  lemma StoredWellFormed(x: Record)
    ensures var r := Stored(x);
            WellFormed(r) <==> (r.status == 0 ==> r.ptr != [] && forall n | n in r.ptr :: NulFree(n))
  {
    hide Template.MarkerFree, Template.Decode, DecodedNames, NulFree;
    var names := DecodedNames(x.ip, KeptNames(x));
    forall n | n in names ensures Template.MarkerFree(n) {
      var i :| 0 <= i < |names| && names[i] == n;
      DecodedNameAt(x.ip, KeptNames(x), i);
      Template.DecodeIsMarkerFree(x.ip, KeptNames(x)[i]);
    }
  }
}
