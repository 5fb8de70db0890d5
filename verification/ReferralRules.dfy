/**
 Which servers a referral leads to, said of the records themselves: by the last NS record, the
 glue within its zone, and otherwise the addresses looked up for the listed names.
 */
module ReferralRules {
  import opened Octets
  import opened Names
  import opened Records
  import opened Domains
  import opened Sorting
  import opened Referrals

  /** The records that can list name servers: authority records first. */
  function Listing(m: Message): seq<ResourceRecord> {
    m.authorities + m.answers
  }

  /** The i-th of them is the last NS record (type 2). */
  ghost predicate LastNSAt(m: Message, i: int) {
    && 0 <= i < |Listing(m)| && Listing(m)[i].typ == 2
    && forall j :: i < j < |Listing(m)| ==> Listing(m)[j].typ != 2
  }

  /** Some NS record names this server. */
  ghost predicate Listed(m: Message, name: Bytes) {
    exists i :: 0 <= i < |Listing(m)| && Lists(Listing(m)[i], name)
  }

  predicate Lists(rr: ResourceRecord, name: Bytes) {
    rr.typ == 2 && rr.data.Some? && rr.data.value.NSData? && Normalize(rr.data.value.nsName) == name
  }

  /** A record that can be glue: an address record (type 1 or 28), additional records first. */
  function Candidates(m: Message): seq<ResourceRecord> {
    m.additionals + m.answers
  }

  predicate AddressRecord(rr: ResourceRecord) {
    rr.typ == 1 || rr.typ == 28
  }

  predicate HasAddress(net: Net, rr: ResourceRecord, ip: Bytes) {
    && ip != [] && rr.data.Some?
    && ((rr.data.value.AData? && ip == net.ipText(rr.data.value.address4))
        || (rr.data.value.AAAAData? && ip == net.ipText(rr.data.value.address16)))
  }

  /** A glue record within the zone, for a listed server, gives this address. */
  ghost predicate Offers(net: Net, m: Message, zone: Bytes, rr: ResourceRecord, ip: Bytes) {
    rr in Candidates(m) && AddressRecord(rr) && InBailiwick(rr.name, zone) && Listed(m, Normalize(rr.name)) && HasAddress(net, rr, ip)
  }

  ghost predicate Offered(net: Net, m: Message, zone: Bytes, ip: Bytes) {
    exists rr :: Offers(net, m, zone, rr, ip)
  }

  /** Looking up a listed server, without its final dot, gives this address. */
  ghost predicate LookedUp(net: Net, m: Message, ip: Bytes) {
    exists name, a :: Listed(m, name) && HostHas(net, TrimDot(name), a) && ip == net.ipText(a)
  }

  ghost predicate HostHas(net: Net, host: Bytes, a: Bytes) {
    net.lookup(host).Some? && Some(a) in net.lookup(host).value
  }

  /** The address records that are not within the zone, by position. */
  ghost function Outside(m: Message, zone: Bytes): set<int> {
    set i | 0 <= i < |Candidates(m)| && AddressRecord(Candidates(m)[i]) && !InBailiwick(Candidates(m)[i].name, zone)
  }

  // ---- the parts ----

  lemma {:induction false} ZoneOfLast(rrs: seq<ResourceRecord>)
    ensures forall i :: 0 <= i < |rrs| && rrs[i].typ == 2 && (forall j :: i < j < |rrs| ==> rrs[j].typ != 2) ==> Zone(rrs) == rrs[i].name
    ensures (forall i :: 0 <= i < |rrs| ==> rrs[i].typ != 2) ==> Zone(rrs) == [46]
  {
    if rrs != [] {
      ZoneOfLast(rrs[..|rrs| - 1]);
    }
  }

  /** The zone of a referral is the owner of the NS record after which no record is NS, and the root when there is none. */
  lemma ZoneExactly(m: Message)
    ensures forall i :: LastNSAt(m, i) ==> Zone(Listing(m)) == Listing(m)[i].name
    ensures (forall i :: 0 <= i < |Listing(m)| ==> Listing(m)[i].typ != 2) ==> Zone(Listing(m)) == [46]
  {
    ZoneOfLast(Listing(m));
  }

  lemma ListedExactly(m: Message)
    ensures forall n :: n in NSNames(Listing(m)) <==> Listed(m, n)
  {
    hide Normalize;
    var rrs := Listing(m);
    forall n
      ensures n in NSNames(rrs) <==> Listed(m, n)
    {
      if n in NSNames(rrs) {
        var rr :| rr in rrs && rr.typ == TYPE_NS && rr.data.Some? && rr.data.value.NSData? && n == Normalize(rr.data.value.nsName);
        var i :| 0 <= i < |rrs| && rrs[i] == rr;
        assert Lists(rrs[i], n);
      }
      if i :| 0 <= i < |rrs| && Lists(rrs[i], n) {
        assert rrs[i] in rrs;
      }
    }
  }

  lemma {:induction false} AddAllMembers(servers: seq<Bytes>, ips: seq<Option<Bytes>>, net: Net)
    requires NoDuplicates(servers)
    ensures forall ip :: ip in AddAll(servers, ips, net) <==> ip in servers || exists a :: Some(a) in ips && ip == net.ipText(a)
  {
    if ips != [] {
      var n := |ips| - 1;
      AddAllMembers(servers, ips[..n], net);
      assert ips == ips[..n] + [ips[n]];
    }
  }

  ghost predicate SomeHostHas(net: Net, hosts: seq<Bytes>, ip: Bytes) {
    exists h, a :: h in hosts && HostHas(net, h, a) && ip == net.ipText(a)
  }

  lemma {:induction false} HostServersMembers(net: Net, hosts: seq<Bytes>)
    ensures forall ip :: ip in HostServers(net, hosts) <==> SomeHostHas(net, hosts, ip)
  {
    if hosts != [] {
      var n := |hosts| - 1;
      HostServersMembers(net, hosts[..n]);
      assert hosts == hosts[..n] + [hosts[n]];
      match net.lookup(hosts[n])
      case None =>
      case Some(ips) => AddAllMembers(HostServers(net, hosts[..n]), ips, net);
      forall ip
        ensures ip in HostServers(net, hosts) <==> SomeHostHas(net, hosts, ip)
      {
        OneMoreHost(net, hosts[..n], hosts[n], ip);
      }
    }
  }

  lemma OneMoreHost(net: Net, hosts: seq<Bytes>, h: Bytes, ip: Bytes)
    ensures SomeHostHas(net, hosts + [h], ip) <==>
              SomeHostHas(net, hosts, ip) || exists a :: HostHas(net, h, a) && ip == net.ipText(a)
  {
    hide HostHas;
    assert h in hosts + [h] && forall x :: x in hosts ==> x in hosts + [h];
  }

  /** The hosts looked up are the listed names without their final dots. */
  lemma HostsListed(m: Message, h: Bytes)
    ensures h in SortStrings(HostNames(NSNames(Listing(m)))) <==> exists name :: Listed(m, name) && h == TrimDot(name)
  {
    hide Normalize, TrimDot, NSNames, Listed;
    var names := NSNames(Listing(m));
    var hosts := HostNames(names);
    ListedExactly(m);
    ListedNormal(m);
    SortSorts(hosts);
    assert h in multiset(SortStrings(hosts)) <==> h in multiset(hosts);
    if h in hosts {
      var i :| 0 <= i < |hosts| && hosts[i] == h;
      assert names[i] in names;
    }
    if name :| Listed(m, name) && h == TrimDot(name) {
      var i :| 0 <= i < |names| && names[i] == name;
      assert hosts[i] == h;
    }
  }

  lemma ListedNormal(m: Message)
    ensures forall n :: Listed(m, n) ==> Normalize(n) == n
  {
    hide Normalize;
    forall n | Listed(m, n)
      ensures Normalize(n) == n
    {
      var i :| 0 <= i < |Listing(m)| && Lists(Listing(m)[i], n);
      NormalizeTwice(Listing(m)[i].data.value.nsName);
    }
  }

  lemma HostServersExactly(net: Net, m: Message)
    ensures forall ip :: ip in HostServers(net, SortStrings(HostNames(NSNames(Listing(m))))) <==> LookedUp(net, m, ip)
  {
    hide TrimDot, NSNames, Listed, HostHas;
    var hosts := SortStrings(HostNames(NSNames(Listing(m))));
    HostServersMembers(net, hosts);
    forall ip
      ensures SomeHostHas(net, hosts, ip) <==> LookedUp(net, m, ip)
    {
      if SomeHostHas(net, hosts, ip) {
        var h, a :| h in hosts && HostHas(net, h, a) && ip == net.ipText(a);
        HostsListed(m, h);
      }
      if LookedUp(net, m, ip) {
        var name, a :| Listed(m, name) && HostHas(net, TrimDot(name), a) && ip == net.ipText(a);
        HostsListed(m, TrimDot(name));
      }
    }
  }

  lemma GlueServersExactly(net: Net, m: Message, zone: Bytes)
    requires zone == Zone(Listing(m))
    ensures forall ip :: ip in GlueServers(net, Glue(Candidates(m), zone).0, NSNames(Listing(m))) <==> Offered(net, m, zone, ip)
  {
    hide Normalize, NSNames, Listed, InBailiwick, GlueServers, Glue;
    ListedExactly(m);
    var glue := Glue(Candidates(m), zone).0;
    forall rr, ip
      ensures HasAddress(net, rr, ip) <==> GlueIP(net, rr) == ip && ip != []
    {
    }
    hide HasAddress, GlueIP;
    forall ip
      ensures ip in GlueServers(net, glue, NSNames(Listing(m))) <==> Offered(net, m, zone, ip)
    {
      if Offered(net, m, zone, ip) {
        var rr :| Offers(net, m, zone, rr, ip);
        assert rr in glue && GlueIP(net, rr) == ip;
      }
      if ip in GlueServers(net, glue, NSNames(Listing(m))) {
        var rr :| rr in glue && Normalize(rr.name) in NSNames(Listing(m)) && GlueIP(net, rr) == ip && ip != [];
        assert Offers(net, m, zone, rr, ip);
      }
    }
  }

  // ---- the whole ----

  /** Without an NS record, or with NS records that name nothing, there is no referral and nothing is counted. */
  lemma NoReferral(net: Net, m: Message)
    requires forall n :: !Listed(m, n)
    ensures NextServers(net, m) == ([], 0)
  {
    hide Listed;
    ListedExactly(m);
    if NSNames(Listing(m)) != [] {
      assert NSNames(Listing(m))[0] in NSNames(Listing(m));
    }
  }

  /**
   The servers of a referral, for the last NS record, whichever it is. They are never repeated; when
   some glue within the owner's zone belongs to a listed server they are exactly the addresses of
   such glue, and otherwise exactly those looked up. The rejected count is the number of address
   records outside that zone.
   */
  lemma ReferralExactly(net: Net, m: Message, last: int)
    requires LastNSAt(m, last) && exists n :: Listed(m, n)
    ensures var zone := Listing(m)[last].name;
            var (servers, rejected) := NextServers(net, m);
            && NoDuplicates(servers) && rejected == |Outside(m, zone)|
            && ((exists ip :: Offered(net, m, zone, ip)) ==> forall ip :: ip in servers <==> Offered(net, m, zone, ip))
            && ((forall ip :: !Offered(net, m, zone, ip)) ==> forall ip :: ip in servers <==> LookedUp(net, m, ip))
  {
    hide Listed, Offered, LookedUp, Zone, Glue, GlueServers, HostServers, NSNames, InBailiwick, SortStrings, HostNames;
    var zone := Listing(m)[last].name;
    ZoneExactly(m);
    ListedExactly(m);
    GlueServersExactly(net, m, zone);
    HostServersExactly(net, m);
    RejectedExactly(Candidates(m), zone);
    assert Strangers(Candidates(m), zone) == Outside(m, zone);
    var servers := GlueServers(net, Glue(Candidates(m), zone).0, NSNames(Listing(m)));
    if servers != [] {
      assert servers[0] in servers;
    }
  }
}
