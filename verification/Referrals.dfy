/**
 Choosing the servers of a referral: FilterGlueByBailiwick (internal/resolver/bailiwick.go),
 nextReferralServers and resolveNSHostnames (internal/resolver/recursive.go). The text of an
 IP address and the lookup of a host name are parameters.
 */
module Referrals {
  import opened Octets
  import opened Names
  import opened Records
  import opened Domains
  import opened Sorting

  /** `ipText` is net.IP.String; `lookup` gives the addresses of a host (None for a nil one), or fails. */
  datatype Net = Net(ipText: Bytes -> Bytes, lookup: Bytes -> Option<seq<Option<Bytes>>>)

  // ---- glue ----

  predicate IsAddress(rr: ResourceRecord) {
    rr.typ == TYPE_A || rr.typ == TYPE_AAAA
  }

  /** The address records among `rrs` that are in bailiwick of `zone`, in order, and the number of the others. */
  function Glue(rrs: seq<ResourceRecord>, zone: Bytes): (r: (seq<ResourceRecord>, nat))
    ensures forall rr :: rr in r.0 <==> rr in rrs && IsAddress(rr) && InBailiwick(rr.name, zone)
  {
    if rrs == [] then ([], 0)
    else
      var n := |rrs| - 1;
      var (valid, rejected) := Glue(rrs[..n], zone);
      assert rrs == rrs[..n] + [rrs[n]];
      if !IsAddress(rrs[n]) then (valid, rejected)
      else if InBailiwick(rrs[n].name, zone) then (valid + [rrs[n]], rejected)
      else (valid, rejected + 1)
  }

  /** The positions of the address records that are not in bailiwick. */
  ghost function Strangers(rrs: seq<ResourceRecord>, zone: Bytes): set<int> {
    set i | 0 <= i < |rrs| && IsAddress(rrs[i]) && !InBailiwick(rrs[i].name, zone)
  }

  /** The count is exactly the number of address records out of bailiwick. */
  lemma {:induction false} RejectedExactly(rrs: seq<ResourceRecord>, zone: Bytes)
    ensures Glue(rrs, zone).1 == |Strangers(rrs, zone)|
  {
    hide InBailiwick;
    if rrs != [] {
      var n := |rrs| - 1;
      RejectedExactly(rrs[..n], zone);
      var last := if IsAddress(rrs[n]) && !InBailiwick(rrs[n].name, zone) then {n} else {};
      assert Strangers(rrs, zone) == Strangers(rrs[..n], zone) + last;
    }
  }

  method FilterGlueByBailiwick(zone: Bytes, rrs: seq<ResourceRecord>) returns (valid: seq<ResourceRecord>, rejected: nat)
    ensures (valid, rejected) == Glue(rrs, zone)
  {
    hide InBailiwick;
    valid, rejected := [], 0;
    for i := 0 to |rrs|
      invariant (valid, rejected) == Glue(rrs[..i], zone)
    {
      assert rrs[..i + 1][..i] == rrs[..i];
      if rrs[i].typ != TYPE_A && rrs[i].typ != TYPE_AAAA {
        continue;
      }
      if InBailiwick(rrs[i].name, zone) {
        valid := valid + [rrs[i]];
      } else {
        rejected := rejected + 1;
      }
    }
    assert rrs[..|rrs|] == rrs;
  }

  /** glueIP: the address as text, empty for other RDATA. */
  function GlueIP(net: Net, rr: ResourceRecord): Bytes {
    match rr.data
    case Some(AData(a)) => net.ipText(a)
    case Some(AAAAData(a)) => net.ipText(a)
    case _ => []
  }

  /** Append what is not there yet. */
  function AddNew(servers: seq<Bytes>, ip: Bytes): seq<Bytes> {
    if ip in servers then servers else servers + [ip]
  }

  ghost predicate NoDuplicates(s: seq<Bytes>) {
    forall i, j :: 0 <= i < j < |s| ==> s[i] != s[j]
  }

  /** The addresses of the glue records that belong to a listed name server, without repetition. */
  function GlueServers(net: Net, glue: seq<ResourceRecord>, ns: seq<Bytes>): (r: seq<Bytes>)
    ensures NoDuplicates(r)
    ensures forall ip :: ip in r <==> exists rr :: rr in glue && Normalize(rr.name) in ns && GlueIP(net, rr) == ip && ip != []
  {
    if glue == [] then []
    else
      var n := |glue| - 1;
      var init := GlueServers(net, glue[..n], ns);
      assert glue == glue[..n] + [glue[n]];
      if Normalize(glue[n].name) !in ns || GlueIP(net, glue[n]) == [] then init
      else AddNew(init, GlueIP(net, glue[n]))
  }

  /** The position of the first glue record that gives the address; the length when none does. */
  function FirstUse(net: Net, glue: seq<ResourceRecord>, ns: seq<Bytes>, ip: Bytes): (k: nat)
    ensures k <= |glue|
    ensures k < |glue| ==> Normalize(glue[k].name) in ns && GlueIP(net, glue[k]) == ip && ip != []
  {
    if glue == [] then 0
    else
      var n := |glue| - 1;
      var k := FirstUse(net, glue[..n], ns, ip);
      if k < n || (Normalize(glue[n].name) in ns && GlueIP(net, glue[n]) == ip && ip != []) then k else n + 1
  }

  /** A glue record that names this address for a listed server. */
  predicate Gives(net: Net, rr: ResourceRecord, ns: seq<Bytes>, ip: Bytes) {
    Normalize(rr.name) in ns && GlueIP(net, rr) == ip && ip != []
  }

  lemma FirstUseStep(net: Net, glue: seq<ResourceRecord>, ns: seq<Bytes>, ip: Bytes)
    requires glue != []
    ensures var n := |glue| - 1;
            var k := FirstUse(net, glue[..n], ns, ip);
            FirstUse(net, glue, ns, ip) == if k < n then k else if Gives(net, glue[n], ns, ip) then n else n + 1
  {
    hide Normalize, GlueIP;
  }

  lemma ServersStep(net: Net, glue: seq<ResourceRecord>, ns: seq<Bytes>)
    requires glue != []
    ensures var n := |glue| - 1;
            var init, ip := GlueServers(net, glue[..n], ns), GlueIP(net, glue[n]);
            && GlueServers(net, glue, ns) == (if Gives(net, glue[n], ns, ip) && ip !in init then init + [ip] else init)
            && forall a :: Gives(net, glue[n], ns, a) ==> a == ip
  {
    hide Normalize, GlueIP;
  }

  ghost predicate Increasing(s: seq<Bytes>, position: Bytes -> nat) {
    forall i, j :: 0 <= i < j < |s| ==> position(s[i]) < position(s[j])
  }

  lemma OrderGrows(before: seq<Bytes>, after: seq<Bytes>, f: Bytes -> nat, g: Bytes -> nat, n: nat)
    requires Increasing(before, f) && before <= after && |after| <= |before| + 1
    requires forall x :: x in before ==> g(x) == f(x) < n
    requires forall x :: x in after && x !in before ==> g(x) == n
    requires NoDuplicates(after)
    ensures Increasing(after, g)
  {
    forall i, j | 0 <= i < j < |after|
      ensures g(after[i]) < g(after[j])
    {
      assert after[i] == before[i] && before[i] in before;
      if j < |before| {
        assert after[j] == before[j] && before[j] in before;
      }
    }
  }

  /** The servers stand in the order in which the glue names them first. */
  lemma {:induction false} ServersInOrder(net: Net, glue: seq<ResourceRecord>, ns: seq<Bytes>)
    ensures var r := GlueServers(net, glue, ns);
            && (forall ip :: ip in r <==> FirstUse(net, glue, ns, ip) < |glue|)
            && Increasing(r, ip => FirstUse(net, glue, ns, ip))
  {
    if glue != [] {
      var n := |glue| - 1;
      ServersInOrder(net, glue[..n], ns);
      ServersStep(net, glue, ns);
      hide Gives, GlueServers;
      var init, r := GlueServers(net, glue[..n], ns), GlueServers(net, glue, ns);
      forall ip
        ensures ip in r <==> FirstUse(net, glue, ns, ip) < |glue|
        ensures ip in init ==> FirstUse(net, glue, ns, ip) == FirstUse(net, glue[..n], ns, ip) < n
        ensures ip in r && ip !in init ==> FirstUse(net, glue, ns, ip) == n
      {
        FirstUseStep(net, glue, ns, ip);
        hide FirstUse;
      }
      hide FirstUse;
      OrderGrows(init, r, ip => FirstUse(net, glue[..n], ns, ip), ip => FirstUse(net, glue, ns, ip), n);
    }
  }

  /** `r` is the records at the positions `at`, which are all those that qualify, from left to right. */
  ghost predicate Positions(rrs: seq<ResourceRecord>, zone: Bytes, r: seq<ResourceRecord>, at: seq<int>) {
    && |at| == |r|
    && (forall j :: 0 <= j < |at| ==> 0 <= at[j] < |rrs| && r[j] == rrs[at[j]])
    && (forall i, j :: 0 <= i < j < |at| ==> at[i] < at[j])
    && (forall k :: 0 <= k < |rrs| ==> (k in at <==> InScope(rrs[k], zone)))
  }

  predicate InScope(rr: ResourceRecord, zone: Bytes) {
    IsAddress(rr) && InBailiwick(rr.name, zone)
  }

  lemma PositionsGrow(rrs: seq<ResourceRecord>, rr: ResourceRecord, zone: Bytes, r: seq<ResourceRecord>, at: seq<int>)
    requires Positions(rrs, zone, r, at)
    ensures if InScope(rr, zone) then Positions(rrs + [rr], zone, r + [rr], at + [|rrs|]) else Positions(rrs + [rr], zone, r, at)
  {
    hide InScope;
    assert |rrs| !in at;
    assert forall k :: k in at + [|rrs|] <==> k in at || k == |rrs|;
  }

  /** Filtering keeps the records' order and repetitions. */
  lemma {:induction false} GlueInOrder(rrs: seq<ResourceRecord>, zone: Bytes) returns (at: seq<int>)
    ensures Positions(rrs, zone, Glue(rrs, zone).0, at)
  {
    hide InBailiwick, Positions;
    if rrs == [] {
      at := [];
      assert Positions([], zone, [], []) by { NoPositions(zone); }
    } else {
      var n := |rrs| - 1;
      at := GlueInOrder(rrs[..n], zone);
      assert rrs[..n] + [rrs[n]] == rrs;
      PositionsGrow(rrs[..n], rrs[n], zone, Glue(rrs[..n], zone).0, at);
      if InScope(rrs[n], zone) {
        at := at + [n];
      }
    }
  }

  lemma NoPositions(zone: Bytes)
    ensures Positions([], zone, [], [])
  {
  }

  // ---- the name servers listed ----

  /** The owner of the last NS record, the root when there is none. */
  function Zone(rrs: seq<ResourceRecord>): Bytes {
    if rrs == [] then [DOT]
    else if rrs[|rrs| - 1].typ == TYPE_NS then rrs[|rrs| - 1].name else Zone(rrs[..|rrs| - 1])
  }

  /** The normalised targets of the NS records, each once. */
  function NSNames(rrs: seq<ResourceRecord>): (r: seq<Bytes>)
    ensures NoDuplicates(r)
    ensures forall n :: n in r <==> exists rr :: rr in rrs && rr.typ == TYPE_NS && rr.data.Some? && rr.data.value.NSData?
                                              && n == Normalize(rr.data.value.nsName)
  {
    if rrs == [] then []
    else
      var rr := rrs[|rrs| - 1];
      var init := NSNames(rrs[..|rrs| - 1]);
      assert rrs == rrs[..|rrs| - 1] + [rr];
      if rr.typ == TYPE_NS && rr.data.Some? && rr.data.value.NSData? then AddNew(init, Normalize(rr.data.value.nsName))
      else init
  }

  // ---- servers by host name ----

  function AddAll(servers: seq<Bytes>, ips: seq<Option<Bytes>>, net: Net): (r: seq<Bytes>)
    requires NoDuplicates(servers)
    ensures NoDuplicates(r)
  {
    if ips == [] then servers
    else
      var init := AddAll(servers, ips[..|ips| - 1], net);
      match ips[|ips| - 1] case None => init case Some(ip) => AddNew(init, net.ipText(ip))
  }

  /** The addresses of the hosts, looked up in order; a failed lookup contributes nothing. */
  function HostServers(net: Net, hosts: seq<Bytes>): (r: seq<Bytes>)
    ensures NoDuplicates(r)
  {
    if hosts == [] then []
    else
      var init := HostServers(net, hosts[..|hosts| - 1]);
      match net.lookup(hosts[|hosts| - 1]) case None => init case Some(ips) => AddAll(init, ips, net)
  }

  /** The names to look up: without the final dot. */
  function HostNames(names: seq<Bytes>): seq<Bytes> {
    seq(|names|, i requires 0 <= i < |names| => TrimDot(Normalize(names[i])))
  }

  /** Spec of nextReferralServers: the servers to ask next, and the glue rejected on the way. */
  function NextServers(net: Net, m: Message): (seq<Bytes>, nat) {
    var rrs := m.authorities + m.answers;
    var ns := NSNames(rrs);
    if ns == [] then ([], 0)
    else
      var (glue, rejected) := Glue(m.additionals + m.answers, Zone(rrs));
      var servers := GlueServers(net, glue, ns);
      (if servers == [] then HostServers(net, SortStrings(HostNames(ns))) else servers, rejected)
  }

  /** A glue record the referral may use. */
  ghost predicate Usable(net: Net, m: Message, rr: ResourceRecord) {
    && (rr in m.additionals || rr in m.answers) && IsAddress(rr)
    && InBailiwick(rr.name, Zone(m.authorities + m.answers))
    && Normalize(rr.name) in NSNames(m.authorities + m.answers)
    && GlueIP(net, rr) != []
  }

  /**
   The servers are never repeated. When any usable glue is there they are exactly the addresses
   of the usable glue; looking up host names is left for when there is none. The rejected
   count is the number of address records out of bailiwick.
   */
  lemma Selection(net: Net, m: Message)
    ensures NoDuplicates(NextServers(net, m).0)
    ensures (exists rr :: Usable(net, m, rr)) ==>
              forall ip :: ip in NextServers(net, m).0 <==> exists rr :: Usable(net, m, rr) && GlueIP(net, rr) == ip
    ensures var ns := NSNames(m.authorities + m.answers);
            (forall rr :: !Usable(net, m, rr)) ==>
              NextServers(net, m).0 == if ns == [] then [] else HostServers(net, SortStrings(HostNames(ns)))
    ensures NextServers(net, m).1
            == if NSNames(m.authorities + m.answers) == [] then 0
               else |Strangers(m.additionals + m.answers, Zone(m.authorities + m.answers))|
  {
    hide InBailiwick, GlueIP, Zone;
    var rrs := m.authorities + m.answers;
    var ns := NSNames(rrs);
    RejectedExactly(m.additionals + m.answers, Zone(rrs));
    var glue := Glue(m.additionals + m.answers, Zone(rrs)).0;
    var servers := GlueServers(net, glue, ns);
    assert forall rr :: Usable(net, m, rr) <==> rr in glue && Normalize(rr.name) in ns && GlueIP(net, rr) != [];
    if rr :| Usable(net, m, rr) {
      assert GlueIP(net, rr) in servers;
    }
    if servers != [] {
      assert servers[0] in servers;
    }
  }

  // ---- as it is built ----

  method NextReferralServers(net: Net, m: Message) returns (servers: seq<Bytes>, rejected: nat)
    ensures (servers, rejected) == NextServers(net, m)
  {
    hide InBailiwick, GlueIP;
    var zone, nsNames := ListedServers(m.authorities + m.answers);
    if nsNames == {} {
      return [], 0;
    }
    var glue;
    glue, rejected := FilterGlueByBailiwick(zone, m.additionals + m.answers);
    servers := [];
    ghost var ns := NSNames(m.authorities + m.answers);
    for i := 0 to |glue|
      invariant servers == GlueServers(net, glue[..i], ns)
    {
      assert glue[..i + 1][..i] == glue[..i];
      if Normalize(glue[i].name) !in nsNames {
        continue;
      }
      var ip := GlueIP(net, glue[i]);
      if ip == [] || ip in servers {
        continue;
      }
      servers := servers + [ip];
    }
    assert glue[..|glue|] == glue;
    if |servers| == 0 {
      servers := ResolveNSHostnames(net, nsNames, ns);
    }
  }

  /** The first loop of nextReferralServers: the zone and the set of name servers. */
  method ListedServers(rrs: seq<ResourceRecord>) returns (zone: Bytes, nsNames: set<Bytes>)
    ensures zone == Zone(rrs)
    ensures forall n :: n in nsNames <==> n in NSNames(rrs)
    ensures nsNames == {} <==> NSNames(rrs) == []
  {
    zone, nsNames := [DOT], {};
    for i := 0 to |rrs|
      invariant zone == Zone(rrs[..i])
      invariant forall n :: n in nsNames <==> n in NSNames(rrs[..i])
    {
      assert rrs[..i + 1][..i] == rrs[..i];
      if rrs[i].typ != TYPE_NS {
        continue;
      }
      zone := rrs[i].name;
      match rrs[i].data
      case Some(NSData(n)) => nsNames := nsNames + {Normalize(n)};
      case _ =>
    }
    assert rrs[..|rrs|] == rrs;
    if NSNames(rrs) != [] {
      assert NSNames(rrs)[0] in nsNames;
    }
  }

  /** resolveNSHostnames: the set of names is walked in no particular order, and sorted. */
  method ResolveNSHostnames(net: Net, nsNames: set<Bytes>, ghost ns: seq<Bytes>) returns (servers: seq<Bytes>)
    requires NoDuplicates(ns) && forall n :: n in nsNames <==> n in ns
    ensures servers == HostServers(net, SortStrings(HostNames(ns)))
  {
    hide Normalize, TrimDot, SortStrings;
    var names: seq<Bytes> := [];
    var rest := nsNames;
    ghost var order: seq<Bytes> := [];
    while rest != {}
      invariant NoDuplicates(order) && names == HostNames(order)
      invariant forall n :: n in order <==> n in nsNames && n !in rest
      invariant rest <= nsNames
      decreases |rest|
    {
      var n :| n in rest;
      HostSplit(order, [n]);
      names := names + [TrimDot(Normalize(n))];
      order := order + [n];
      rest := rest - {n};
    }
    SameHosts(order, ns);
    var hosts := SortStrings(names);
    servers := [];
    for i := 0 to |hosts|
      invariant servers == HostServers(net, hosts[..i]) && NoDuplicates(servers)
    {
      assert hosts[..i + 1][..i] == hosts[..i];
      match net.lookup(hosts[i])
      case None =>
      case Some(ips) => servers := AddAddresses(net, servers, ips);
    }
    assert hosts[..|hosts|] == hosts;
  }

  method AddAddresses(net: Net, before: seq<Bytes>, ips: seq<Option<Bytes>>) returns (servers: seq<Bytes>)
    requires NoDuplicates(before)
    ensures servers == AddAll(before, ips, net)
  {
    servers := before;
    for i := 0 to |ips|
      invariant servers == AddAll(before, ips[..i], net)
    {
      assert ips[..i + 1][..i] == ips[..i];
      match ips[i]
      case None =>
      case Some(ip) =>
        if net.ipText(ip) !in servers {
          servers := servers + [net.ipText(ip)];
        }
    }
    assert ips[..|ips|] == ips;
  }

  /** However a set of names is walked, the sorted list of hosts is the same. */
  lemma SameHosts(a: seq<Bytes>, b: seq<Bytes>)
    requires NoDuplicates(a) && NoDuplicates(b) && forall n :: n in a <==> n in b
    ensures SortStrings(HostNames(a)) == SortStrings(HostNames(b))
  {
    SameElements(a, b);
    HostMultiset(a, b);
    SortCanonical(HostNames(a), HostNames(b));
  }

  lemma {:induction false} SameElements(a: seq<Bytes>, b: seq<Bytes>)
    requires NoDuplicates(a) && NoDuplicates(b) && forall n :: n in a <==> n in b
    ensures multiset(a) == multiset(b)
  {
    forall n | n in a || n in b
      ensures multiset(a)[n] == 1 && multiset(b)[n] == 1
    {
      Once(a, n);
      Once(b, n);
    }
  }

  lemma {:induction false} Once(a: seq<Bytes>, n: Bytes)
    requires NoDuplicates(a) && n in a
    ensures multiset(a)[n] == 1
  {
    var k := |a| - 1;
    assert a == a[..k] + [a[k]];
    if a[k] == n {
      assert n !in a[..k];
      assert n !in multiset(a[..k]);
    } else {
      Once(a[..k], n);
    }
  }

  lemma {:induction false} HostMultiset(a: seq<Bytes>, b: seq<Bytes>)
    requires multiset(a) == multiset(b)
    ensures multiset(HostNames(a)) == multiset(HostNames(b))
  {
    assert |multiset(a)| == |a| && |multiset(b)| == |b|;
    if a != [] {
      var k := |a| - 1;
      assert a == a[..k] + [a[k]];
      assert a[k] in multiset(b);
      var j :| 0 <= j < |b| && b[j] == a[k];
      var rest := b[..j] + b[j + 1..];
      assert b == b[..j] + [b[j]] + b[j + 1..];
      assert multiset(a[..k]) == multiset(a) - multiset{a[k]};
      assert multiset(rest) == multiset(b) - multiset{b[j]};
      HostMultiset(a[..k], rest);
      HostSplit(a[..k], [a[k]]);
      HostSplit(b[..j], b[j + 1..]);
      HostSplit(b[..j] + [b[j]], b[j + 1..]);
      HostSplit(b[..j], [b[j]]);
    }
  }

  lemma HostSplit(a: seq<Bytes>, b: seq<Bytes>)
    ensures HostNames(a + b) == HostNames(a) + HostNames(b)
  {
  }
}
