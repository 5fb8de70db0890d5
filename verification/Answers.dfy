/**
 How the resolver reads a reply: hasAnswer and findCNAME (internal/resolver/recursive.go),
 TTLFromSOA (internal/cache/negative.go), shouldCacheAsNODATA and minTTL
 (internal/resolver/resolver.go).
 */
module Answers {
  import opened Octets
  import opened Durations
  import opened Records
  import opened Domains

  /** A record that hasAnswer accepts; for a CNAME question the owner does not matter. */
  predicate IsAnswer(rr: ResourceRecord, qname: Bytes, qtype: uint16) {
    rr.typ == qtype && (qtype == TYPE_CNAME || Normalize(rr.name) == Normalize(qname))
  }

  /** The loop of hasAnswer. */
  function HasAnswer(rrs: seq<ResourceRecord>, qname: Bytes, qtype: uint16): (r: bool)
    ensures r <==> exists i :: 0 <= i < |rrs| && IsAnswer(rrs[i], qname, qtype)
  {
    if rrs == [] then false
    else if Normalize(rrs[0].name) == Normalize(qname) && rrs[0].typ == qtype then assert IsAnswer(rrs[0], qname, qtype); true
    else if rrs[0].typ == TYPE_CNAME && qtype == TYPE_CNAME then assert IsAnswer(rrs[0], qname, qtype); true
    else
      var r := HasAnswer(rrs[1..], qname, qtype);
      assert forall i :: 1 <= i < |rrs| ==> rrs[i] == rrs[1..][i - 1];
      r
  }

  /** A CNAME record owned by `qname`. */
  predicate AliasOf(rr: ResourceRecord, qname: Bytes) {
    rr.typ == TYPE_CNAME && Normalize(rr.name) == Normalize(qname) && rr.data.Some? && rr.data.value.CNAMEData?
  }

  /** findCNAME: the target of the first CNAME record owned by `qname`. */
  function FindCNAME(rrs: seq<ResourceRecord>, qname: Bytes): (r: Option<Bytes>)
    ensures r.None? <==> forall i :: 0 <= i < |rrs| ==> !AliasOf(rrs[i], qname)
    ensures r.Some? ==> exists i :: 0 <= i < |rrs| && AliasOf(rrs[i], qname) && r.value == Normalize(rrs[i].data.value.cname)
                                    && forall j :: 0 <= j < i ==> !AliasOf(rrs[j], qname)
  {
    if rrs == [] then None
    else if rrs[0].typ != TYPE_CNAME || Normalize(rrs[0].name) != Normalize(qname) then
      FirstAlias(rrs, qname);
      FindCNAME(rrs[1..], qname)
    else if rrs[0].data.Some? && rrs[0].data.value.CNAMEData? then
      assert AliasOf(rrs[0], qname);
      Some(Normalize(rrs[0].data.value.cname))
    else
      FirstAlias(rrs, qname);
      FindCNAME(rrs[1..], qname)
  }

  lemma FirstAlias(rrs: seq<ResourceRecord>, qname: Bytes)
    requires rrs != []
    ensures forall i :: 0 <= i < |rrs| - 1 ==> rrs[1..][i] == rrs[i + 1]
    ensures forall i :: 1 <= i < |rrs| ==> AliasOf(rrs[i], qname) == AliasOf(rrs[1..][i - 1], qname)
  {
  }

  /** TTLFromSOA: the minimum field of the first SOA among the authority records, or 0. */
  function SOAMinimum(rrs: seq<ResourceRecord>): nat {
    if rrs == [] then 0
    else if rrs[0].typ == TYPE_SOA && rrs[0].data.Some? && rrs[0].data.value.SOAData? then rrs[0].data.value.minimum
    else SOAMinimum(rrs[1..])
  }

  function TTLFromSOA(m: Message): int {
    SOAMinimum(m.authorities) * SECOND
  }

  function ShouldCacheAsNODATA(m: Message, qname: Bytes, qtype: uint16): bool {
    m.header.rcode == RCODE_NO_ERROR && !HasAnswer(m.answers, qname, qtype) && TTLFromSOA(m) > 0
  }

  /** authoritySOAName. */
  function SOAName(rrs: seq<ResourceRecord>): Bytes {
    if rrs == [] then [] else if rrs[0].typ == TYPE_SOA then rrs[0].name else SOAName(rrs[1..])
  }

  lemma {:induction false} SOANameIs(rrs: seq<ResourceRecord>)
    ensures forall i :: 0 <= i < |rrs| && rrs[i].typ == 6 && (forall j :: 0 <= j < i ==> rrs[j].typ != 6) ==> SOAName(rrs) == rrs[i].name
    ensures (forall i :: 0 <= i < |rrs| ==> rrs[i].typ != 6) ==> SOAName(rrs) == []
  {
    if rrs != [] {
      SOANameIs(rrs[1..]);
      assert forall i :: 1 <= i < |rrs| ==> rrs[i] == rrs[1..][i - 1];
      assert forall i :: 0 <= i < |rrs| - 1 ==> rrs[1..][i] == rrs[i + 1];
    }
  }

  // ---- minTTL ----

  function AllRecords(m: Message): seq<ResourceRecord> {
    m.answers + m.authorities + m.additionals
  }

  /** The running minimum of minTTL: 0 while no record with a positive TTL has been seen. */
  function LeastTTL(rrs: seq<ResourceRecord>): (r: nat) {
    if rrs == [] then 0
    else
      var min, ttl := LeastTTL(rrs[..|rrs| - 1]), rrs[|rrs| - 1].ttl;
      if ttl == 0 then min else if min == 0 || ttl < min then ttl else min
  }

  /** minTTL of a message. */
  function MinTTL(m: Message): int {
    var min := LeastTTL(AllRecords(m));
    if min == 0 then 30 * SECOND else min * SECOND
  }

  lemma {:induction false} LeastTTLIs(rrs: seq<ResourceRecord>)
    ensures var r := LeastTTL(rrs);
            && (forall i :: 0 <= i < |rrs| && rrs[i].ttl > 0 ==> 0 < r <= rrs[i].ttl)
            && (r > 0 ==> exists i :: 0 <= i < |rrs| && rrs[i].ttl == r)
  {
    if rrs != [] {
      var n := |rrs| - 1;
      LeastTTLIs(rrs[..n]);
      var was := LeastTTL(rrs[..n]);
      if was > 0 {
        var i :| 0 <= i < n && rrs[..n][i].ttl == was;
        assert rrs[i].ttl == was;
      }
      assert forall i :: 0 <= i < n ==> rrs[i] == rrs[..n][i];
      assert rrs[n].ttl == 0 || LeastTTL(rrs) == rrs[n].ttl || LeastTTL(rrs) == was;
    }
  }

  /** The lifetime is the least positive TTL in any section, and half a minute when there is none. */
  lemma MinTTLIs(m: Message)
    ensures var all := AllRecords(m);
            && (forall i :: 0 <= i < |all| && all[i].ttl > 0 ==> MinTTL(m) <= all[i].ttl * SECOND)
            && (MinTTL(m) == 30 * SECOND || exists i :: 0 <= i < |all| && all[i].ttl > 0 && MinTTL(m) == all[i].ttl * SECOND)
            && ((forall i :: 0 <= i < |all| ==> all[i].ttl == 0) ==> MinTTL(m) == 30 * SECOND)
            && MinTTL(m) >= SECOND
  {
    LeastTTLIs(AllRecords(m));
  }

  method ComputeMinTTL(m: Message) returns (d: int)
    ensures d == MinTTL(m)
  {
    var min := 0;
    var all := AllRecords(m);
    for i := 0 to |all|
      invariant min == LeastTTL(all[..i])
    {
      assert all[..i + 1][..i] == all[..i];
      if all[i].ttl == 0 {
        continue;
      }
      if min == 0 || all[i].ttl < min {
        min := all[i].ttl;
      }
    }
    assert all[..|all|] == all;
    if min == 0 {
      min := 30;
    }
    d := min * SECOND;
  }
}
