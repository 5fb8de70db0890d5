/**
 What resolveRecursive does with each reply: exactly when it goes on, what it goes on with, and
 how it ends otherwise, for every reply of every run.
 */
module RecursionTurns {
  import opened Octets
  import opened Names
  import opened Records
  import opened Domains
  import opened Keys
  import opened Answers
  import opened Referrals
  import opened Recursion
  import opened RecursionRuns
  import opened RecursionExact

  // ---- reading a reply ----

  /** The first record that aliases the name is the i-th answer. */
  ghost predicate FirstAliasAt(m: Message, name: Bytes, i: int) {
    && 0 <= i < |m.answers| && IsAliasOf(m.answers[i], name)
    && forall j :: 0 <= j < i ==> !IsAliasOf(m.answers[j], name)
  }

  /** A CNAME record (type 5) of this owner, names compared as normalised. */
  predicate IsAliasOf(rr: ResourceRecord, name: Bytes) {
    rr.typ == 5 && Normalize(rr.name) == Normalize(name) && rr.data.Some? && rr.data.value.CNAMEData?
  }

  ghost predicate HasAlias(m: Message, name: Bytes) {
    exists i :: 0 <= i < |m.answers| && IsAliasOf(m.answers[i], name)
  }

  /** An answer of the type asked for, owned by the name unless a CNAME is asked for. */
  ghost predicate Answering(m: Message, name: Bytes, qtype: uint16) {
    exists i :: 0 <= i < |m.answers| && m.answers[i].typ == qtype
                && (qtype == 5 || Normalize(m.answers[i].name) == Normalize(name))
  }

  /** The i-th authority record is the first that holds SOA data (type 6). */
  ghost predicate FirstSOAAt(m: Message, i: int) {
    && 0 <= i < |m.authorities| && HoldsSOA(m.authorities[i])
    && forall j :: 0 <= j < i ==> !HoldsSOA(m.authorities[j])
  }

  predicate HoldsSOA(rr: ResourceRecord) {
    rr.typ == 6 && rr.data.Some? && rr.data.value.SOAData?
  }

  ghost predicate PositiveSOA(m: Message) {
    exists i :: FirstSOAAt(m, i) && m.authorities[i].data.value.minimum > 0
  }

  /** TTLFromSOA is the minimum field of the first SOA, in seconds; zero without one. */
  lemma {:induction false} SOAMinimumIs(rrs: seq<ResourceRecord>)
    ensures (forall i :: 0 <= i < |rrs| ==> !HoldsSOA(rrs[i])) ==> SOAMinimum(rrs) == 0
    ensures forall i :: 0 <= i < |rrs| && HoldsSOA(rrs[i]) && (forall j :: 0 <= j < i ==> !HoldsSOA(rrs[j])) ==>
              SOAMinimum(rrs) == rrs[i].data.value.minimum
  {
    if rrs != [] {
      SOAMinimumIs(rrs[1..]);
      assert forall i :: 1 <= i < |rrs| ==> rrs[i] == rrs[1..][i - 1];
      assert forall i :: 0 <= i < |rrs| - 1 ==> rrs[1..][i] == rrs[i + 1];
    }
  }

  lemma TTLFromSOAIs(m: Message)
    ensures forall i :: FirstSOAAt(m, i) ==> TTLFromSOA(m) == m.authorities[i].data.value.minimum as int * 1_000_000_000
    ensures (forall i :: 0 <= i < |m.authorities| ==> !HoldsSOA(m.authorities[i])) ==> TTLFromSOA(m) == 0
    ensures TTLFromSOA(m) > 0 <==> PositiveSOA(m)
  {
    SOAMinimumIs(m.authorities);
    FirstOrNone(m);
  }

  lemma FirstOrNone(m: Message)
    ensures (exists i :: FirstSOAAt(m, i)) || forall i :: 0 <= i < |m.authorities| ==> !HoldsSOA(m.authorities[i])
  {
    NoneBefore(m, |m.authorities|);
  }

  lemma {:induction false} NoneBefore(m: Message, n: nat)
    requires n <= |m.authorities|
    ensures (exists i :: FirstSOAAt(m, i)) || forall i :: 0 <= i < n ==> !HoldsSOA(m.authorities[i])
  {
    if n > 0 {
      NoneBefore(m, n - 1);
      if HoldsSOA(m.authorities[n - 1]) && forall i :: 0 <= i < n - 1 ==> !HoldsSOA(m.authorities[i]) {
        assert FirstSOAAt(m, n - 1);
      }
    }
  }

  /** The functions the walk uses say what the predicates above say. */
  lemma ReplyRead(m: Message, name: Bytes, qtype: uint16)
    ensures HasAlias(m, name) <==> FindCNAME(m.answers, name).Some?
    ensures forall i :: FirstAliasAt(m, name, i) ==>
                          FindCNAME(m.answers, name) == Some(Normalize(m.answers[i].data.value.cname))
    ensures HasAnswer(m.answers, name, qtype) <==> Answering(m, name, qtype)
    ensures ShouldCacheAsNODATA(m, name, qtype) <==> m.header.rcode == 0 && !Answering(m, name, qtype) && PositiveSOA(m)
  {
    TTLFromSOAIs(m);
    hide Normalize, FindCNAME, HasAnswer, TTLFromSOA, PositiveSOA;
    assert forall i :: 0 <= i < |m.answers| ==> IsAliasOf(m.answers[i], name) == AliasOf(m.answers[i], name);
    assert forall i :: 0 <= i < |m.answers| ==>
        IsAnswer(m.answers[i], name, qtype)
        == (m.answers[i].typ == qtype && (qtype == 5 || Normalize(m.answers[i].name) == Normalize(name)));
    forall i | FirstAliasAt(m, name, i)
      ensures FindCNAME(m.answers, name) == Some(Normalize(m.answers[i].data.value.cname))
    {
      FirstFound(m, name, i);
    }
  }

  lemma FirstFound(m: Message, name: Bytes, i: int)
    requires FirstAliasAt(m, name, i)
    ensures FindCNAME(m.answers, name) == Some(Normalize(m.answers[i].data.value.cname))
  {
    hide Normalize, FindCNAME;
    var r := FindCNAME(m.answers, name);
    assert AliasOf(m.answers[i], name);
    var k :| 0 <= k < |m.answers| && AliasOf(m.answers[k], name) && r.value == Normalize(m.answers[k].data.value.cname)
             && forall j :: 0 <= j < k ==> !AliasOf(m.answers[j], name);
    assert IsAliasOf(m.answers[k], name) && AliasOf(m.answers[i], name);
    assert k == i;
  }

  // ---- the turn ----

  /** The alias the reply holds for the name in hand would be followed next. */
  ghost predicate Followable(env: Env, qtype: uint16, w: Walk, m: Message) {
    && m.header.rcode != 3 && qtype != 5 && HasAlias(m, w.qname)
    && w.depth < env.cfg.maxCNAME && FindCNAME(m.answers, w.qname).value !in w.chain
  }

  /** Nothing in the reply settles the question, and it refers to other servers. */
  ghost predicate Referring(env: Env, qtype: uint16, w: Walk, m: Message) {
    && m.header.rcode == 0 && (qtype == 5 || !HasAlias(m, w.qname))
    && !Answering(m, w.qname, qtype) && !PositiveSOA(m) && NextServers(env.net(|w.sent|), m).0 != []
  }

  /** A minimised name was refused. */
  predicate RefusedMinimised(w: Walk, qtype: uint16, m: Message) {
    m.header.rcode == 3 && NextQuery(w, qtype).name != w.qname
  }

  /** Exactly when the walk goes on after a message, what it goes on with, and how it ends otherwise. */
  ghost predicate TurnsRightly(env: Env, qtype: uint16, w: Walk, m: Message) {
    var t := Round(env, qtype, w);
    var v := Send(w, NextQuery(w, qtype));
    && (t.Next? <==> RefusedMinimised(w, qtype, m) || Followable(env, qtype, w, m) || Referring(env, qtype, w, m))
    && (RefusedMinimised(w, qtype, m) ==> t == Next(v.(minimize := false)))
    && (Followable(env, qtype, w, m) ==>
          && t.walk.qname == FindCNAME(m.answers, w.qname).value && t.walk.servers == env.roots && t.walk.steps == 0
          && t.walk.minimize == w.minimize && t.walk.sent == v.sent && t.walk.chain == w.chain + [t.walk.qname])
    && (Referring(env, qtype, w, m) ==> t == Next(v.(servers := NextServers(env.net(|w.sent|), m).0)))
    && (t.Done? ==> t.last == v && t.outcome == Ending(env, qtype, w, m))
  }

  /** The outcome of a walk that ends with this message. */
  ghost function Ending(env: Env, qtype: uint16, w: Walk, m: Message): Outcome {
    if m.header.rcode != 3 && qtype != 5 && HasAlias(m, w.qname) then
      if w.depth >= env.cfg.maxCNAME then Failure(TooManyAliases) else Failure(RepeatedAlias)
    else if m.header.rcode == 0 && !Answering(m, w.qname, qtype) && !PositiveSOA(m)
            && !m.header.aa && m.answers == [] && m.authorities == [] then Failure(NoServers)
    else Answered(m)
  }

  lemma TurnExactly(env: Env, name: Bytes, qtype: uint16, w: Walk, m: Message)
    requires Good(env, name, qtype, w) && KeyOf(NextQuery(w, qtype)) !in w.states
    requires env.reply(|w.sent|) == Got(m)
    ensures TurnsRightly(env, qtype, w, m)
  {
    hide Good, NextQuery, KeyOf, Normalize, ToLower, FindCNAME, HasAnswer, ShouldCacheAsNODATA, NextServers, HasAlias,
      Answering, PositiveSOA, FirstAliasAt, React, TurnsRightly;
    ReplyRead(m, w.qname, qtype);
    AliasesAreTargets(env, name, qtype, w, m);
    RoundReacts(env, qtype, w, m);
    NextQueryIs(w, qtype);
    ReactTurns(env, qtype, w, NextQuery(w, qtype), m);
  }

  lemma RoundReacts(env: Env, qtype: uint16, w: Walk, m: Message)
    requires KeyOf(NextQuery(w, qtype)) !in w.states && env.reply(|w.sent|) == Got(m)
    ensures Round(env, qtype, w) == React(env, qtype, Send(w, NextQuery(w, qtype)), NextQuery(w, qtype), m)
  {
    hide NextQuery, KeyOf, React;
  }

  lemma ReactTurns(env: Env, qtype: uint16, w: Walk, q: Query, m: Message)
    requires q == NextQuery(w, qtype) && Normalize(w.qname) == w.qname
    requires Round(env, qtype, w) == React(env, qtype, Send(w, q), q, m)
    requires var a := FindCNAME(m.answers, w.qname);
             && (HasAlias(m, w.qname) <==> a.Some?)
             && (a.Some? ==> (ToLower(Normalize(a.value)) in w.aliases <==> a.value in w.chain))
    requires HasAnswer(m.answers, w.qname, qtype) <==> Answering(m, w.qname, qtype)
    requires ShouldCacheAsNODATA(m, w.qname, qtype) <==> m.header.rcode == 0 && !Answering(m, w.qname, qtype) && PositiveSOA(m)
    ensures TurnsRightly(env, qtype, w, m)
  {
    hide NextQuery, KeyOf, Normalize, ToLower, FindCNAME, HasAnswer, ShouldCacheAsNODATA, NextServers, HasAlias, Answering,
      PositiveSOA, Round, IsAnswer, AliasOf;
  }

  /** Remembered aliases are the targets followed, and the walk's own name is normalised. */
  lemma AliasesAreTargets(env: Env, name: Bytes, qtype: uint16, w: Walk, m: Message)
    requires Good(env, name, qtype, w)
    ensures Normalize(w.qname) == w.qname
    ensures FindCNAME(m.answers, w.qname).Some? ==>
              var t := FindCNAME(m.answers, w.qname).value; ToLower(Normalize(t)) in w.aliases <==> t in w.chain
  {
    hide Normalize, ToLower, FindCNAME, Bounded, Fresh, Currents, Disciplined, JustifiedAt;
    TargetNormal(m.answers, w.qname);
    if FindCNAME(m.answers, w.qname).Some? {
      LowerNormal(FindCNAME(m.answers, w.qname).value);
    }
  }

  /**
   At every moment of every run: the run goes on exactly when its next query has not been sent
   before, a message comes back, and that message refuses a minimised name, names an alias that can
   be followed, or refers to other servers without settling the question. Otherwise it ends there,
   with the message as its answer unless an alias cannot be followed or nothing at all was said.
   */
  lemma TurnInEveryRun(env: Env, name: Bytes, qtype: uint16, n: nat)
    requires Normalize(name) == name && Visit(env, qtype, Start(env, name), n).Some?
    requires Visit(env, qtype, Start(env, name), n).value.steps < env.cfg.maxDepth
    ensures var w := Visit(env, qtype, Start(env, name), n).value;
            var r := env.reply(|w.sent|);
            var unsent := KeyOf(NextQuery(w, qtype)) !in w.states;
            && (Visit(env, qtype, Start(env, name), n + 1).Some? ==> unsent && r.Got?)
            && (unsent && r.Got? ==>
                  && TurnsRightly(env, qtype, w, r.message)
                  && (Visit(env, qtype, Start(env, name), n + 1).Some? <==> Round(env, qtype, w).Next?)
                  && (Round(env, qtype, w).Done? ==> Finished(env, name, qtype).0 == Ending(env, qtype, w, r.message)))
  {
    hide Good, Run, Round, Start, NextQuery, KeyOf, Referring, Followable, Ending;
    VisitGood(env, name, qtype, n);
    var w := Visit(env, qtype, Start(env, name), n).value;
    RunUnfolds(env, qtype, w);
    RoundNeedsMessage(env, qtype, w);
    if KeyOf(NextQuery(w, qtype)) !in w.states && env.reply(|w.sent|).Got? {
      TurnExactly(env, name, qtype, w, env.reply(|w.sent|).message);
    }
  }

  lemma RoundNeedsMessage(env: Env, qtype: uint16, w: Walk)
    ensures Round(env, qtype, w).Next? ==> KeyOf(NextQuery(w, qtype)) !in w.states && env.reply(|w.sent|).Got?
  {
    hide NextQuery, KeyOf, React;
  }

  // ---- whom the next query goes to ----

  /** The servers asked after query k for the same name: those its reply refers to, or the same ones after a refusal. */
  ghost predicate ServersAfter(env: Env, k: nat, before: seq<Bytes>, after: seq<Bytes>) {
    && env.reply(k).Got?
    && var m := env.reply(k).message;
    after == if m.header.rcode == 3 then before else NextServers(env.net(k), m).0
  }

  ghost predicate Served(env: Env, w: Walk) {
    && (forall i {:trigger w.sent[i]} :: 0 < i < |w.sent| && w.sent[i].hop > 0 ==>
          ServersAfter(env, i - 1, w.sent[i - 1].servers, w.sent[i].servers))
    && (w.steps > 0 ==> w.sent != [] && ServersAfter(env, |w.sent| - 1, w.sent[|w.sent| - 1].servers, w.servers))
  }

  /** Of a walk whose query has just been sent. */
  ghost predicate SentServed(env: Env, w: Walk) {
    forall i {:trigger w.sent[i]} :: 0 < i < |w.sent| && w.sent[i].hop > 0 ==>
      ServersAfter(env, i - 1, w.sent[i - 1].servers, w.sent[i].servers)
  }

  lemma SendServed(env: Env, qtype: uint16, w: Walk)
    requires Served(env, w)
    ensures SentServed(env, Send(w, NextQuery(w, qtype)))
  {
    hide ServersAfter, KeyOf, MinimizedName, Normalize;
  }

  lemma RoundServed(env: Env, qtype: uint16, w: Walk)
    requires Served(env, w)
    ensures var t := Round(env, qtype, w);
            if t.Next? then Served(env, t.walk) else SentServed(env, t.last)
  {
    hide NextQuery, KeyOf, Normalize, ToLower, FindCNAME, HasAnswer, ShouldCacheAsNODATA, NextServers, React, Served, SentServed,
      IsAnswer, AliasOf;
    SendServed(env, qtype, w);
    NextQueryServers(w, qtype);
    ServedSent(env, w);
    if KeyOf(NextQuery(w, qtype)) !in w.states && env.reply(|w.sent|).Got? {
      RoundReacts(env, qtype, w, env.reply(|w.sent|).message);
      ReactServed(env, qtype, Send(w, NextQuery(w, qtype)), NextQuery(w, qtype), env.reply(|w.sent|).message);
    }
  }

  lemma ServedSent(env: Env, w: Walk)
    requires Served(env, w)
    ensures SentServed(env, w)
  {
    hide ServersAfter;
  }

  lemma ReactServed(env: Env, qtype: uint16, w: Walk, q: Query, m: Message)
    requires SentServed(env, w) && w.sent != [] && w.steps > 0 && w.sent[|w.sent| - 1] == q && q.servers == w.servers
    requires env.reply(|w.sent| - 1) == Got(m)
    ensures var t := React(env, qtype, w, q, m);
            if t.Next? then Served(env, t.walk) else SentServed(env, t.last)
  {
    hide KeyOf, Normalize, ToLower, FindCNAME, HasAnswer, ShouldCacheAsNODATA, NextServers, SentServed, IsAnswer, AliasOf;
    var t := React(env, qtype, w, q, m);
    if t.Next? {
      assert t.walk.sent == w.sent;
      SentMeans(env, w, t.walk);
    }
  }

  lemma SentMeans(env: Env, v: Walk, w: Walk)
    requires SentServed(env, v) && w.sent == v.sent
    requires w.steps > 0 ==> w.sent != [] && ServersAfter(env, |w.sent| - 1, w.sent[|w.sent| - 1].servers, w.servers)
    ensures Served(env, w)
  {
    hide ServersAfter;
  }

  lemma {:induction false} RunServed(env: Env, qtype: uint16, w: Walk)
    requires Served(env, w)
    ensures SentServed(env, Run(env, qtype, w).1)
    decreases AtLeastZero(env.cfg.maxCNAME - w.depth), AtLeastZero(env.cfg.maxDepth - w.steps)
  {
    hide Run, Round, Served, SentServed;
    RunUnfolds(env, qtype, w);
    RoundMoves(env, qtype, w);
    RoundServed(env, qtype, w);
    ServedSent(env, w);
    if w.steps < env.cfg.maxDepth && Round(env, qtype, w).Next? {
      RunServed(env, qtype, Round(env, qtype, w).walk);
    }
  }

  /** In every run a later query for a name goes to the servers selected from the reply before it, or to the same after a refusal. */
  lemma QueriesFollowReplies(env: Env, name: Bytes, qtype: uint16, i: nat)
    requires i + 1 < |Finished(env, name, qtype).1.sent| && Finished(env, name, qtype).1.sent[i + 1].hop > 0
    ensures var sent := Finished(env, name, qtype).1.sent;
            && env.reply(i).Got? && var m := env.reply(i).message;
            sent[i + 1].servers == if m.header.rcode == 3 then sent[i].servers else NextServers(env.net(i), m).0
  {
    hide Run, NextServers;
    RunServed(env, qtype, Start(env, name));
  }
}
