/**
 Where resolveRecursive falls short, exactly: which aliases it cannot follow because the states
 it has visited are not forgotten, and when a NODATA answer for a minimised name can be
 returned for the whole name.
 */
module RecursionExact {
  import opened Octets
  import opened Names
  import opened Records
  import opened Domains
  import opened Keys
  import opened Answers
  import opened Sorting
  import opened Referrals
  import opened Recursion
  import opened RecursionRuns

  // ---- every moment of every run ----

  /** The walk after n rounds, while there are any. */
  function Visit(env: Env, qtype: uint16, w: Walk, n: nat): Option<Walk> {
    if n == 0 then Some(w)
    else
      match Visit(env, qtype, w, n - 1)
      case None => None
      case Some(v) =>
        if v.steps >= env.cfg.maxDepth then None
        else
          var t := Round(env, qtype, v);
          if t.Next? then Some(t.walk) else None
  }

  /** At every moment the walk is good, and the run ends as the walk goes on from there. */
  lemma {:induction false} VisitGood(env: Env, name: Bytes, qtype: uint16, n: nat)
    requires Normalize(name) == name
    ensures var v := Visit(env, qtype, Start(env, name), n);
            v.Some? ==> Good(env, name, qtype, v.value) && Run(env, qtype, v.value) == Finished(env, name, qtype)
  {
    hide Good, Run, Round, Start;
    if n == 0 {
      StartGood(env, name, qtype);
    } else {
      VisitGood(env, name, qtype, n - 1);
      var v := Visit(env, qtype, Start(env, name), n - 1);
      if v.Some? && v.value.steps < env.cfg.maxDepth {
        RoundGood(env, name, qtype, v.value);
        RunUnfolds(env, qtype, v.value);
      }
    }
  }

  // ---- server texts ----

  /** Addresses are written without the bar and the comma, as IP addresses are. */
  ghost predicate PlainEnv(env: Env) {
    && (forall x :: x in env.roots ==> Plain(x))
    && forall k: nat, a :: Plain(env.net(k).ipText(a))
  }

  ghost predicate AllPlain(servers: seq<Bytes>) {
    forall x :: x in servers ==> Plain(x)
  }

  lemma {:induction false} AddAllPlain(servers: seq<Bytes>, ips: seq<Option<Bytes>>, net: Net)
    requires NoDuplicates(servers) && AllPlain(servers) && forall a :: Plain(net.ipText(a))
    ensures AllPlain(AddAll(servers, ips, net))
  {
    hide Plain;
    if ips != [] {
      AddAllPlain(servers, ips[..|ips| - 1], net);
    }
  }

  lemma {:induction false} HostServersPlain(net: Net, hosts: seq<Bytes>)
    requires forall a :: Plain(net.ipText(a))
    ensures AllPlain(HostServers(net, hosts))
  {
    hide Plain;
    if hosts != [] {
      var n := |hosts| - 1;
      HostServersPlain(net, hosts[..n]);
      match net.lookup(hosts[n])
      case None =>
      case Some(ips) => AddAllPlain(HostServers(net, hosts[..n]), ips, net);
    }
  }

  lemma NextServersPlain(net: Net, m: Message)
    requires forall a :: Plain(net.ipText(a))
    ensures AllPlain(NextServers(net, m).0)
  {
    hide Plain, Glue, Zone, NSNames, SortStrings, AllPlain, HostServers, GlueServers, HostNames;
    var ns := NSNames(m.authorities + m.answers);
    HostServersPlain(net, SortStrings(HostNames(ns)));
    GluePlain(net, Glue(m.additionals + m.answers, Zone(m.authorities + m.answers)).0, ns);
    NothingPlain();
  }

  lemma NothingPlain()
    ensures AllPlain([])
  {
  }

  lemma GluePlain(net: Net, glue: seq<ResourceRecord>, ns: seq<Bytes>)
    requires forall a :: Plain(net.ipText(a))
    ensures AllPlain(GlueServers(net, glue, ns))
  {
    hide Plain, Normalize, GlueServers;
    forall ip | ip in GlueServers(net, glue, ns)
      ensures Plain(ip)
    {
      var rr :| rr in glue && Normalize(rr.name) in ns && GlueIP(net, rr) == ip && ip != [];
    }
  }

  ghost predicate PlainWalk(w: Walk) {
    AllPlain(w.servers) && forall i :: 0 <= i < |w.sent| ==> AllPlain(w.sent[i].servers)
  }

  lemma RoundPlain(env: Env, qtype: uint16, w: Walk)
    requires PlainEnv(env) && PlainWalk(w)
    ensures Round(env, qtype, w).Next? ==> PlainWalk(Round(env, qtype, w).walk)
  {
    hide AllPlain, KeyOf, FindCNAME, HasAnswer, ShouldCacheAsNODATA, NextServers, Normalize, ToLower, MinimizedName;
    assert AllPlain(env.roots) by { RootsPlain(env); }
    if env.reply(|w.sent|).Got? {
      NextServersPlain(env.net(|w.sent|), env.reply(|w.sent|).message);
    }
  }

  lemma RootsPlain(env: Env)
    requires PlainEnv(env)
    ensures AllPlain(env.roots)
  {
  }

  lemma {:induction false} VisitPlain(env: Env, name: Bytes, qtype: uint16, n: nat)
    requires PlainEnv(env)
    ensures var v := Visit(env, qtype, Start(env, name), n); v.Some? ==> PlainWalk(v.value)
  {
    hide PlainWalk, Round, PlainEnv;
    if n == 0 {
      assert PlainWalk(Start(env, name)) by { StartPlain(env, name); }
    } else {
      VisitPlain(env, name, qtype, n - 1);
      var v := Visit(env, qtype, Start(env, name), n - 1);
      if v.Some? && v.value.steps < env.cfg.maxDepth {
        RoundPlain(env, qtype, v.value);
      }
    }
  }

  lemma StartPlain(env: Env, name: Bytes)
    requires PlainEnv(env)
    ensures PlainWalk(Start(env, name))
  {
    RootsPlain(env);
  }

  // ---- repeated states, exactly ----

  /** The two queries ask the same of the same servers. */
  ghost predicate SameState(p: Query, q: Query) {
    Normalize(p.name) == Normalize(q.name) && p.typ == q.typ && multiset(p.servers) == multiset(q.servers)
  }

  /** At every moment, the coming round stops for a repeated state exactly when its query has been sent before. */
  lemma RepeatExactly(env: Env, name: Bytes, qtype: uint16, w: Walk)
    requires Good(env, name, qtype, w) && PlainWalk(w)
    ensures Round(env, qtype, w) == Done(Failure(RepeatedState), w)
            <==> exists i :: 0 <= i < |w.sent| && SameState(w.sent[i], NextQuery(w, qtype))
  {
    hide NextQuery, Plain, StateKey, Normalize, Bounded, Chained, Currents, Disciplined;
    var q := NextQuery(w, qtype);
    NextQueryServers(w, qtype);
    RoundRepeats(env, qtype, w);
    forall i | 0 <= i < |w.sent|
      ensures KeyOf(w.sent[i]) == KeyOf(q) <==> SameState(w.sent[i], q)
    {
      StateKeyExact(w.sent[i].name, w.sent[i].typ, w.sent[i].servers, q.name, q.typ, q.servers);
    }
  }

  lemma NextQueryServers(w: Walk, qtype: uint16)
    ensures NextQuery(w, qtype).servers == w.servers
  {
  }

  lemma RoundRepeats(env: Env, qtype: uint16, w: Walk)
    ensures Round(env, qtype, w) == Done(Failure(RepeatedState), w) <==> KeyOf(NextQuery(w, qtype)) in w.states
  {
    hide NextQuery, KeyOf, FindCNAME, HasAnswer, ShouldCacheAsNODATA, NextServers, Normalize, ToLower;
  }

  // ---- the first query for a name ----

  /** What the first query for a name asks for, with names minimised or not. */
  function FirstName(name: Bytes, minimize: bool): Bytes {
    Normalize(if minimize then MinimizedName(name, 0) else name)
  }

  function FirstType(name: Bytes, qtype: uint16, minimize: bool): uint16 {
    if minimize && MinimizedName(name, 0) != Normalize(name) then TYPE_NS else qtype
  }

  /** Two names whose resolution starts with the same query. */
  predicate SameStart(a: Bytes, b: Bytes, qtype: uint16, minimize: bool) {
    FirstName(a, minimize) == FirstName(b, minimize) && FirstType(a, qtype, minimize) == FirstType(b, qtype, minimize)
  }

  /** Every query is preceded by, or is, the first one for its name. */
  lemma {:induction false} FirstOf(env: Env, name: Bytes, qtype: uint16, w: Walk, k: nat) returns (j: nat)
    requires Good(env, name, qtype, w) && k < |w.sent|
    ensures j <= k && w.sent[j].hop == 0 && w.sent[j].current == w.sent[k].current
  {
    hide Bounded, Fresh, Chained, Currents, WellFormed, Normalize;
    if w.sent[k].hop == 0 {
      j := k;
    } else {
      assert Follows(w.sent[k - 1], w.sent[k]);
      j := FirstOf(env, name, qtype, w, k - 1);
    }
  }

  /** While no minimised name has been refused, queries are minimised as configured. */
  lemma {:induction false} StillAsConfigured(env: Env, name: Bytes, qtype: uint16, w: Walk, k: nat)
    requires Good(env, name, qtype, w) && k < |w.sent| && w.minimize == env.cfg.minimize
    ensures w.sent[k].minimized == env.cfg.minimize
    decreases |w.sent| - k
  {
    hide Bounded, Fresh, Chained, Currents, Normalize;
    assert WellFormed(env, w.sent[k], qtype);
    if k < |w.sent| - 1 {
      StillAsConfigured(env, name, qtype, w, k + 1);
      assert Follows(w.sent[k], w.sent[k + 1]);
    }
  }

  /** The first query for a name is the one FirstName and FirstType tell, and goes to the roots. */
  lemma FirstQueryIs(env: Env, name: Bytes, qtype: uint16, w: Walk, j: nat)
    requires Good(env, name, qtype, w) && j < |w.sent| && w.sent[j].hop == 0 && w.minimize == env.cfg.minimize
    ensures var q := w.sent[j];
            && Normalize(q.name) == FirstName(q.current, w.minimize) && q.typ == FirstType(q.current, qtype, w.minimize)
            && q.servers == env.roots
  {
    StillAsConfigured(env, name, qtype, w, j);
    hide Bounded, Fresh, Chained, Currents, Normalize, MinimizedName;
    assert WellFormed(env, w.sent[j], qtype);
  }

  lemma NextFirst(env: Env, name: Bytes, qtype: uint16, w: Walk)
    requires Good(env, name, qtype, w) && w.steps == 0
    ensures var q := NextQuery(w, qtype);
            && Normalize(q.name) == FirstName(w.qname, w.minimize) && q.typ == FirstType(w.qname, qtype, w.minimize)
            && q.servers == env.roots
  {
    hide Bounded, Fresh, Chained, Currents, Normalize, MinimizedName;
  }

  /** A later query to the root servers is never the first query for its name again. */
  lemma LaterNotFirst(env: Env, name: Bytes, qtype: uint16, w: Walk, k: nat)
    requires Good(env, name, qtype, w) && k < |w.sent| && w.sent[k].hop > 0 && w.minimize == env.cfg.minimize
    requires multiset(w.sent[k].servers) == multiset(env.roots)
    ensures Normalize(w.sent[k].name) != FirstName(w.sent[k].current, w.minimize)
            || w.sent[k].typ != FirstType(w.sent[k].current, qtype, w.minimize)
  {
    hide Normalize, MinimizedName, StateKey, Chained, Currents, Bounded;
    var j := FirstOf(env, name, qtype, w, k);
    FirstQueryIs(env, name, qtype, w, j);
    var p, q := w.sent[j], w.sent[k];
    StateKeyExact(p.name, p.typ, p.servers, q.name, q.typ, q.servers);
    assert KeyOf(p) != KeyOf(q);
  }

  /** A later query that asks for what some name's first query asks for is its own name's first query. */
  lemma LaterAsksAlike(env: Env, name: Bytes, qtype: uint16, w: Walk, k: nat, other: Bytes)
    requires Good(env, name, qtype, w) && k < |w.sent| && w.minimize == env.cfg.minimize
    requires Normalize(w.sent[k].name) == FirstName(other, w.minimize)
    requires w.sent[k].hop > 0
    ensures Normalize(w.sent[k].name) == FirstName(w.sent[k].current, w.minimize)
            && w.sent[k].typ == FirstType(w.sent[k].current, qtype, w.minimize)
  {
    StillAsConfigured(env, name, qtype, w, k);
    hide Normalize, MinimizedName, Bounded, Fresh, Chained, Currents, LabelsOf;
    var q := w.sent[k];
    assert WellFormed(env, q, qtype);
    if w.minimize {
      MinimizedDots(q.current, q.hop);
      MinimizedDots(other, 0);
      MinimizedIs(q.current, q.hop);
      MinimizedIs(q.current, 0);
    }
  }

  /** A query in the same state as the first one for `other` makes the two names start alike. */
  lemma SentAlike(env: Env, name: Bytes, qtype: uint16, w: Walk, k: nat, other: Bytes)
    requires Good(env, name, qtype, w) && k < |w.sent| && w.minimize == env.cfg.minimize
    requires Normalize(w.sent[k].name) == FirstName(other, w.minimize) && w.sent[k].typ == FirstType(other, qtype, w.minimize)
    requires multiset(w.sent[k].servers) == multiset(env.roots)
    ensures SameStart(w.sent[k].current, other, qtype, w.minimize)
  {
    hide Good, Normalize, FirstName, FirstType;
    if w.sent[k].hop > 0 {
      LaterAsksAlike(env, name, qtype, w, k, other);
      LaterNotFirst(env, name, qtype, w, k);
    } else {
      FirstQueryIs(env, name, qtype, w, k);
    }
  }

  /**
   Which aliases cannot be followed. At any moment after an alias has been followed, while
   minimisation is as configured, the walk stops for a repeated state exactly when resolution
   of an earlier name of the run started with the very same query. With minimisation off that
   means the same name; with it on, any name under the same top-level domain will do.
   */
  lemma FollowedAliasExactly(env: Env, name: Bytes, qtype: uint16, w: Walk)
    requires Good(env, name, qtype, w) && PlainWalk(w)
    requires w.steps == 0 && w.minimize == env.cfg.minimize
    ensures Round(env, qtype, w) == Done(Failure(RepeatedState), w)
            <==> exists i: nat :: i < |w.chain| && SameStart(Before(name, w.chain, i), w.qname, qtype, w.minimize)
  {
    hide Normalize, Round, Plain, SameStart, NextQuery, Bounded, Fresh, Disciplined, FirstName, FirstType, Aliased, DistinctTargets;
    RepeatExactly(env, name, qtype, w);
    NextFirst(env, name, qtype, w);
    var q := NextQuery(w, qtype);
    if k :| 0 <= k < |w.sent| && SameState(w.sent[k], q) {
      SentAlike(env, name, qtype, w, k, w.qname);
      assert Resolved(name, w.chain, w.sent[k].current, Asked(w));
    }
    if i: nat :| i < |w.chain| && SameStart(Before(name, w.chain, i), w.qname, qtype, w.minimize) {
      assert JustifiedAt(env, name, w, i);
      StartRepeated(env, name, qtype, w, i);
    }
  }

  lemma StartRepeated(env: Env, name: Bytes, qtype: uint16, w: Walk, i: nat)
    requires Good(env, name, qtype, w) && w.steps == 0 && w.minimize == env.cfg.minimize
    requires i < |w.chain| && SameStart(Before(name, w.chain, i), w.qname, qtype, w.minimize)
    ensures exists j :: 0 <= j < |w.sent| && SameState(w.sent[j], NextQuery(w, qtype))
  {
    assert JustifiedAt(env, name, w, i);
    hide Good, Normalize, FirstName, FirstType, NextQuery;
    NextFirst(env, name, qtype, w);
    var j := FirstOf(env, name, qtype, w, w.followed[i]);
    FirstQueryIs(env, name, qtype, w, j);
    assert SameState(w.sent[j], NextQuery(w, qtype));
  }

  /** Once minimisation has been given up: exactly when the whole name has been sent to the root servers before. */
  lemma FollowedAliasWhole(env: Env, name: Bytes, qtype: uint16, w: Walk)
    requires Good(env, name, qtype, w) && PlainWalk(w) && w.steps == 0 && !w.minimize
    ensures Round(env, qtype, w) == Done(Failure(RepeatedState), w)
            <==> exists i :: 0 <= i < |w.sent| && Normalize(w.sent[i].name) == w.qname && w.sent[i].typ == qtype
                             && multiset(w.sent[i].servers) == multiset(env.roots)
  {
    hide Normalize, MinimizedName, Round, Plain, Bounded, Fresh, Chained, Currents;
    RepeatExactly(env, name, qtype, w);
    NextFirst(env, name, qtype, w);
  }

  /** Without minimisation, the one alias that cannot be followed is the one back to the name asked for. */
  lemma AliasBackToStart(env: Env, name: Bytes, qtype: uint16, w: Walk)
    requires Good(env, name, qtype, w) && PlainWalk(w) && Normalize(name) == name && w.steps == 0 && !env.cfg.minimize
    ensures Round(env, qtype, w) == Done(Failure(RepeatedState), w) <==> w.chain != [] && w.qname == name
  {
    hide Normalize, MinimizedName, Round, Plain, Bounded, Fresh, Currents, JustifiedAt;
    FollowedAliasExactly(env, name, qtype, w);
    assert forall i :: 0 <= i <= |w.chain| ==> Normalize(Before(name, w.chain, i)) == Before(name, w.chain, i);
    if w.chain != [] && w.qname == name {
      assert SameStart(Before(name, w.chain, 0), w.qname, qtype, w.minimize);
    }
  }

  /**
   With minimisation on, an alias to a name under the same top-level domain as an earlier name
   of the run is never resolved, wherever in the run it is met: the states visited are not
   forgotten, and the first query for the target has been sent before.
   */
  lemma SameTopLevelFails(env: Env, name: Bytes, qtype: uint16, n: nat, i: nat)
    requires Normalize(name) == name && n > 0 && Visit(env, qtype, Start(env, name), n).Some?
    requires var w := Visit(env, qtype, Start(env, name), n).value;
             && w.steps == 0 && w.minimize && i < |w.chain| && env.cfg.maxDepth > 0
             && var a, b := LabelsOf(Before(name, w.chain, i)), LabelsOf(w.qname);
             |a| > 1 && |b| > 1 && a[|a| - 1] == b[|b| - 1]
    ensures Finished(env, name, qtype) == (Failure(RepeatedState), Visit(env, qtype, Start(env, name), n).value)
  {
    hide Run, Normalize, Round, Visit, LabelsOf, NextQuery, FirstName, FirstType, Bounded, Fresh, Currents, Start;
    VisitGood(env, name, qtype, n);
    var w := Visit(env, qtype, Start(env, name), n).value;
    FirstAlike(Before(name, w.chain, i), w.qname, qtype);
    StartRepeated(env, name, qtype, w, i);
    RepeatStops(env, name, qtype, w);
    RunUnfolds(env, qtype, w);
  }

  lemma RepeatStops(env: Env, name: Bytes, qtype: uint16, w: Walk)
    requires Good(env, name, qtype, w)
    requires exists i :: 0 <= i < |w.sent| && SameState(w.sent[i], NextQuery(w, qtype))
    ensures Round(env, qtype, w) == Done(Failure(RepeatedState), w)
  {
    hide NextQuery, StateKey, Normalize, Bounded, Chained, Currents, Disciplined, SameState;
    var q := NextQuery(w, qtype);
    RoundRepeats(env, qtype, w);
    var i :| 0 <= i < |w.sent| && SameState(w.sent[i], q);
    SameKey(w.sent[i], q);
  }

  lemma SameKey(p: Query, q: Query)
    requires SameState(p, q)
    ensures KeyOf(p) == KeyOf(q)
  {
    hide Normalize, StateKey;
    StateKeyExact(p.name, p.typ, p.servers, q.name, q.typ, q.servers);
  }

  lemma FirstAlike(a: Bytes, b: Bytes, qtype: uint16)
    requires |LabelsOf(a)| > 1 && |LabelsOf(b)| > 1
    requires LabelsOf(a)[|LabelsOf(a)| - 1] == LabelsOf(b)[|LabelsOf(b)| - 1]
    ensures SameStart(a, b, qtype, true)
  {
    hide LabelsOf, Normalize, MinimizedName, Dotted;
    var l, m := LabelsOf(a), LabelsOf(b);
    MinimizedIs(a, 0);
    MinimizedIs(b, 0);
    assert l[|l| - 1..] == [l[|l| - 1]] && m[|m| - 1..] == [m[|m| - 1]];
  }

  /**
   The whole story, for every alias followed in every run: the run stops there, for a repeated
   state, exactly when an earlier name of the run started with the same query, or, once
   minimisation has been given up, when the whole target has been sent to the root servers before.
   */
  lemma AliasInEveryRun(env: Env, name: Bytes, qtype: uint16, n: nat)
    requires Normalize(name) == name && PlainEnv(env) && env.cfg.maxDepth > 0
    requires Visit(env, qtype, Start(env, name), n).Some? && Visit(env, qtype, Start(env, name), n).value.steps == 0
    ensures var w := Visit(env, qtype, Start(env, name), n).value;
            var stops := Round(env, qtype, w) == Done(Failure(RepeatedState), w);
            && w.depth == |w.chain| && w.qname == Before(name, w.chain, |w.chain|)
            && (stops ==> Finished(env, name, qtype) == (Failure(RepeatedState), w))
            && (w.minimize == env.cfg.minimize ==>
                  (stops <==> exists i: nat :: i < |w.chain| && SameStart(Before(name, w.chain, i), w.qname, qtype, w.minimize)))
            && (w.minimize != env.cfg.minimize ==>
                  (stops <==> exists i :: 0 <= i < |w.sent| && Normalize(w.sent[i].name) == w.qname && w.sent[i].typ == qtype
                                          && multiset(w.sent[i].servers) == multiset(env.roots)))
  {
    hide Run, Normalize, Round, Visit, Start, PlainWalk, PlainEnv, Fresh, Currents, Disciplined, SameStart;
    VisitGood(env, name, qtype, n);
    VisitPlain(env, name, qtype, n);
    var w := Visit(env, qtype, Start(env, name), n).value;
    RunUnfolds(env, qtype, w);
    if w.minimize == env.cfg.minimize {
      FollowedAliasExactly(env, name, qtype, w);
    } else {
      NeverOnAgain(env, name, qtype, w);
      FollowedAliasWhole(env, name, qtype, w);
    }
  }

  lemma NeverOnAgain(env: Env, name: Bytes, qtype: uint16, w: Walk)
    requires Good(env, name, qtype, w) && w.minimize != env.cfg.minimize
    ensures !w.minimize
  {
  }

  // ---- NODATA for a minimised name ----

  /** In every run with these settings, a NODATA answer comes from a query for the whole name. */
  ghost predicate NodataIsForWholeName(cfg: Config, name: Bytes, qtype: uint16) {
    forall env: Env :: env.cfg == cfg ==> WholeNodata(env, name, qtype)
  }

  ghost predicate WholeNodata(env: Env, name: Bytes, qtype: uint16) {
    var (outcome, w) := Finished(env, name, qtype);
    outcome.Answered? && ShouldCacheAsNODATA(outcome.message, w.qname, qtype) ==>
      w.sent != [] && w.sent[|w.sent| - 1].name == w.qname
  }

  /** No query of a run can be for less than the whole name. */
  predicate NeverMinimised(cfg: Config, name: Bytes, qtype: uint16) {
    || !cfg.minimize || cfg.maxDepth <= 0
    || (|LabelsOf(name)| <= 1 && (qtype == TYPE_CNAME || cfg.maxCNAME <= 0))
  }

  /** An answer's last query was sent for the name in hand, minimised only as configured. */
  lemma LastQuery(env: Env, name: Bytes, qtype: uint16)
    requires Normalize(name) == name && Finished(env, name, qtype).0.Answered?
    ensures var w := Finished(env, name, qtype).1;
            && w.sent != [] && var q := w.sent[|w.sent| - 1];
            && q.current == w.qname && WellFormed(env, q, qtype)
            && w.depth == |w.chain| <= AtLeastZero(env.cfg.maxCNAME) && w.qname == Before(name, w.chain, |w.chain|)
            && |w.sent| <= (AtLeastZero(env.cfg.maxCNAME) + 1) * AtLeastZero(env.cfg.maxDepth)
  {
    hide Run, Normalize, WellFormed, Follows, FellBack, Currents, Fresh;
    OutcomeJustified(env, qtype, Start(env, name));
    FinishedSound(env, name, qtype);
    QueriesBounded(env, name, qtype);
  }

  /** Nothing is followed when the question is for a CNAME. */
  lemma {:induction false} CNAMEFollowsNothing(env: Env, w: Walk)
    requires w.chain == []
    ensures Run(env, TYPE_CNAME, w).1.chain == []
    decreases AtLeastZero(env.cfg.maxCNAME - w.depth), AtLeastZero(env.cfg.maxDepth - w.steps)
  {
    hide Run, Round;
    RunUnfolds(env, TYPE_CNAME, w);
    RoundMoves(env, TYPE_CNAME, w);
    CNAMERound(env, w);
    if w.steps < env.cfg.maxDepth && Round(env, TYPE_CNAME, w).Next? {
      CNAMEFollowsNothing(env, Round(env, TYPE_CNAME, w).walk);
    }
  }

  lemma CNAMERound(env: Env, w: Walk)
    ensures var t := Round(env, TYPE_CNAME, w); (if t.Next? then t.walk.chain else t.last.chain) == w.chain
  {
    hide NextQuery, KeyOf, FindCNAME, HasAnswer, ShouldCacheAsNODATA, NextServers, Normalize, ToLower;
  }

  lemma WholeWhenNeverMinimised(env: Env, name: Bytes, qtype: uint16)
    requires Normalize(name) == name && NeverMinimised(env.cfg, name, qtype)
    ensures WholeNodata(env, name, qtype)
  {
    hide Run, Normalize, MinimizedName, LabelsOf, ShouldCacheAsNODATA;
    if Finished(env, name, qtype).0.Answered? {
      LastQuery(env, name, qtype);
      var w := Finished(env, name, qtype).1;
      var q := w.sent[|w.sent| - 1];
      if qtype == TYPE_CNAME {
        CNAMEFollowsNothing(env, Start(env, name));
      }
      if |LabelsOf(name)| <= 1 && w.chain == [] {
        MinimizedIs(name, q.hop);
      }
    }
  }

  // ---- upstreams that make it happen ----

  const PLAIN_HEADER := Header(0, true, 0, false, false, false, false, 0, RCODE_NO_ERROR, 0, 0, 0, 0)

  /** No records but an SOA. */
  const NODATA := Message(PLAIN_HEADER, [], [],
                          [ResourceRecord([DOT], TYPE_SOA, CLASS_IN, 0, Some(SOAData([], [], 0, 0, 0, 0, 1)), [])], [])

  function AliasMessage(name: Bytes, target: Bytes): Message {
    Message(PLAIN_HEADER, [], [ResourceRecord(name, TYPE_CNAME, CLASS_IN, 0, Some(CNAMEData(target)), [])], [], [])
  }

  lemma NodataReads(name: Bytes, qtype: uint16)
    ensures ShouldCacheAsNODATA(NODATA, name, qtype) && FindCNAME(NODATA.answers, name).None?
  {
    hide Normalize;
    var rrs := NODATA.authorities;
    assert rrs[0].data.value.minimum == 1;
    assert SOAMinimum(rrs) == 1;
  }

  lemma AliasReads(name: Bytes, target: Bytes)
    ensures FindCNAME(AliasMessage(name, target).answers, name) == Some(Normalize(target))
  {
    hide Normalize;
    assert AliasOf(AliasMessage(name, target).answers[0], name);
  }

  /** A NODATA reply to a minimised name is returned as the answer for the whole name. */
  lemma NodataOfMinimisedName(env: Env, name: Bytes, qtype: uint16, m: Message)
    requires env.cfg.minimize && env.cfg.maxDepth > 0 && Normalize(name) == name && |LabelsOf(name)| > 1
    requires env.reply(0) == Got(m) && ShouldCacheAsNODATA(m, name, qtype) && FindCNAME(m.answers, name).None?
    ensures Finished(env, name, qtype).0 == Answered(m)
    ensures var w := Finished(env, name, qtype).1; |w.sent| == 1 && w.sent[0].name != name && w.qname == name
  {
    hide Run, Normalize, LabelsOf, FindCNAME, StateKey, MinimizedName, HasAnswer, TTLFromSOA;
    RunUnfolds(env, qtype, Start(env, name));
    MinimizedIs(name, 0);
  }

  /** A name of two labels that starts with another query than `name`. */
  function Elsewhere(name: Bytes): Bytes {
    if name == [97, DOT] then [97, DOT, 98, DOT] else [97, DOT, 97, DOT]
  }

  lemma ElsewhereIs(name: Bytes)
    ensures var t := Elsewhere(name);
            && |t| == 4 && Normalize(t) == t && |LabelsOf(t)| == 2
            && MinimizedName(t, 0) == [t[2], DOT] && Normalize(MinimizedName(t, 0)) == [t[2], DOT] && [t[2], DOT] != name
  {
    hide MinimizedName, Normalize;
    TwoLabels(97, Elsewhere(name)[2]);
  }

  lemma TwoLabels(x: byte, y: byte)
    requires 97 <= x <= 122 && 97 <= y <= 122
    ensures var t := [x, DOT, y, DOT];
            && Normalize(t) == t && LabelsOf(t) == [[x], [y]]
            && MinimizedName(t, 0) == [y, DOT] && Normalize([y, DOT]) == [y, DOT]
  {
    hide MinimizedName, Normalize;
    var t: Bytes := [x, DOT, y, DOT];
    var last: Bytes := [y, DOT];
    NormalFixed(t);
    NormalFixed(last);
    TwoCut(x, y);
    MinimizedIs(t, 0);
    assert LabelsOf(t)[1..] == [[y]];
    LastDotted(y);
  }

  lemma LastDotted(y: byte)
    ensures Dotted([[y]]) == [y, DOT]
  {
    var l: Labels := [[y]];
    assert l[1..] == [];
    assert Dotted(l) == [y] + [DOT] + Dotted([]);
  }

  lemma TwoCut(x: byte, y: byte)
    requires 97 <= x <= 122 && 97 <= y <= 122
    requires Normalize([x, DOT, y, DOT]) == [x, DOT, y, DOT]
    ensures LabelsOf([x, DOT, y, DOT]) == [[x], [y]]
  {
    hide Normalize, SplitDots;
    var t: Bytes := [x, DOT, y, DOT];
    var labels: Labels := [[x], [y]];
    LastDotted(y);
    assert labels[1..] == [[y]];
    assert Dotted(labels) == [x] + [DOT] + [y, DOT];
    assert Dotted(labels) == t;
    SplitOfDotted(labels);
  }

  /** The name is aliased elsewhere, and NODATA is the reply to everything after that. */
  function AliasEnv(cfg: Config, name: Bytes): Env {
    Env(cfg, [], n => if n == 0 then Got(AliasMessage(name, Elsewhere(name))) else Got(NODATA), n => Net(a => a, h => None))
  }

  lemma NodataBehindAlias(cfg: Config, name: Bytes, qtype: uint16)
    requires Normalize(name) == name && |LabelsOf(name)| <= 1 && qtype != TYPE_CNAME
    requires cfg.minimize && cfg.maxDepth > 0 && cfg.maxCNAME > 0
    ensures !WholeNodata(AliasEnv(cfg, name), name, qtype)
  {
    hide Run, Normalize, LabelsOf, FindCNAME, StateKey, MinimizedName, HasAnswer, TTLFromSOA, ToLower, Elsewhere, NextServers;
    var env, t := AliasEnv(cfg, name), Elsewhere(name);
    var w := Start(env, name);
    var q := NextQuery(w, qtype);
    ElsewhereIs(name);
    MinimizedIs(name, 0);
    AliasReads(name, t);
    RunUnfolds(env, qtype, w);
    var v := Follow(env, Send(w, q), t);
    assert Round(env, qtype, w) == Next(v);
    RunUnfolds(env, qtype, v);
    var p := NextQuery(v, qtype);
    StateKeyExact(q.name, q.typ, q.servers, p.name, p.typ, p.servers);
    assert KeyOf(p) != KeyOf(q);
    NodataReads(t, qtype);
    assert Round(env, qtype, v) == Done(Answered(NODATA), Send(v, p));
  }

  /**
   Exactly when NODATA answers can be trusted to be for the name asked for: the settings and the
   name must rule out that any query is minimised.
   */
  lemma NodataExactly(cfg: Config, name: Bytes, qtype: uint16)
    requires Normalize(name) == name
    ensures NodataIsForWholeName(cfg, name, qtype) <==> NeverMinimised(cfg, name, qtype)
  {
    hide WholeNodata, Normalize, LabelsOf;
    if NeverMinimised(cfg, name, qtype) {
      forall env: Env | env.cfg == cfg
        ensures WholeNodata(env, name, qtype)
      {
        WholeWhenNeverMinimised(env, name, qtype);
      }
    } else if |LabelsOf(name)| > 1 {
      NodataAtOnce(cfg, name, qtype);
    } else {
      NodataBehindAlias(cfg, name, qtype);
      assert AliasEnv(cfg, name).cfg == cfg;
    }
  }

  lemma NodataAtOnce(cfg: Config, name: Bytes, qtype: uint16)
    requires Normalize(name) == name && |LabelsOf(name)| > 1 && cfg.minimize && cfg.maxDepth > 0
    ensures !NodataIsForWholeName(cfg, name, qtype)
  {
    hide Normalize, LabelsOf, Run;
    var env := Env(cfg, [], n => Got(NODATA), n => Net(a => a, h => None));
    NodataReads(name, qtype);
    NodataOfMinimisedName(env, name, qtype, NODATA);
    assert !WholeNodata(env, name, qtype);
  }
}
