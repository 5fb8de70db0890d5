/** What holds of every run of resolveRecursive, whatever the upstream answers. */
module RecursionRuns {
  import opened Octets
  import opened Names
  import opened Records
  import opened Domains
  import opened Keys
  import opened Answers
  import opened Referrals
  import opened Recursion

  // ---- what a walk keeps ----

  /** Never more than maxDepth queries for one name. */
  ghost predicate Bounded(env: Env, w: Walk) {
    && w.depth <= AtLeastZero(env.cfg.maxCNAME) && w.steps <= AtLeastZero(env.cfg.maxDepth)
    && |w.sent| <= w.depth * AtLeastZero(env.cfg.maxDepth) + w.steps
  }

  /** No state is queried twice. */
  ghost predicate Fresh(w: Walk) {
    && (forall k :: k in w.states <==> exists i :: 0 <= i < |w.sent| && KeyOf(w.sent[i]) == k)
    && (forall i, j :: 0 <= i < j < |w.sent| ==> KeyOf(w.sent[i]) != KeyOf(w.sent[j]))
  }

  /** The name the i-th alias was found under. */
  function Before(name: Bytes, chain: seq<Bytes>, i: nat): Bytes
    requires i <= |chain|
  {
    if i == 0 then name else chain[i - 1]
  }

  /** Reply k aliased `from` to `target`, and was not NXDOMAIN. */
  ghost predicate Aliased(env: Env, k: nat, from: Bytes, target: Bytes) {
    && env.reply(k).Got? && env.reply(k).message.header.rcode != RCODE_NAME_ERROR
    && FindCNAME(env.reply(k).message.answers, from) == Some(target)
  }

  /** The targets are normalised, pairwise distinct, and exactly the aliases remembered. */
  ghost predicate DistinctTargets(chain: seq<Bytes>, aliases: set<Bytes>) {
    && (forall i :: 0 <= i < |chain| ==> Normalize(chain[i]) == chain[i])
    && (forall i, j :: 0 <= i < j < |chain| ==> chain[i] != chain[j])
    && aliases == set a | a in chain
  }

  /** The reply to query `followed[i]`, sent for the i-th name, aliased that name to the next; the queries come in order. */
  ghost predicate JustifiedAt(env: Env, name: Bytes, w: Walk, i: nat)
    requires i < |w.chain| == |w.followed|
  {
    var k := w.followed[i];
    && k < |w.sent| && w.sent[k].current == Before(name, w.chain, i)
    && Aliased(env, k, Before(name, w.chain, i), w.chain[i])
    && (i > 0 ==> w.followed[i - 1] < k)
  }

  ghost predicate Chained(env: Env, name: Bytes, w: Walk) {
    && w.depth == |w.chain| == |w.followed| && w.qname == Before(name, w.chain, |w.chain|)
    && DistinctTargets(w.chain, w.aliases)
    && (forall i :: 0 <= i < |w.chain| ==> JustifiedAt(env, name, w, i))
  }

  /** `c` is one of the first n names resolved. */
  ghost predicate Resolved(name: Bytes, chain: seq<Bytes>, c: Bytes, n: nat)
    requires n <= |chain| + 1
  {
    exists i: nat :: i < n && Before(name, chain, i) == c
  }

  /** How many names queries have been sent for. */
  function Asked(w: Walk): nat {
    if w.steps == 0 then |w.chain| else |w.chain| + 1
  }

  /** Every query was sent for one of these names. */
  ghost predicate Currents(name: Bytes, w: Walk) {
    forall k :: 0 <= k < |w.sent| ==> Resolved(name, w.chain, w.sent[k].current, Asked(w))
  }

  /** A query is for the whole name, or for its last labels and then for NS records; the first for a name goes to the roots. */
  ghost predicate WellFormed(env: Env, q: Query, qtype: uint16) {
    && (q.hop == 0 ==> q.servers == env.roots)
    && (q.minimized ==> env.cfg.minimize)
    && Normalize(q.current) == q.current
    && q.name == (if q.minimized then MinimizedName(q.current, q.hop) else q.current)
    && q.typ == (if q.name == q.current then qtype else TYPE_NS)
  }

  /** From one query to the next: the same name and one hop on, or another name from the start. */
  ghost predicate Follows(p: Query, q: Query) {
    && ((q.current == p.current && q.hop == p.hop + 1) || q.hop == 0)
    && (q.minimized ==> p.minimized)
  }

  /** A minimised name was refused with NXDOMAIN, so the whole name is asked for from then on. */
  ghost predicate FellBack(env: Env, w: Walk, i: nat)
    requires i < |w.sent|
  {
    && env.reply(i).Got? && env.reply(i).message.header.rcode == RCODE_NAME_ERROR
    && w.sent[i].name != w.sent[i].current
  }

  ghost predicate Disciplined(env: Env, qtype: uint16, w: Walk) {
    && (forall i :: 0 <= i < |w.sent| ==> WellFormed(env, w.sent[i], qtype))
    && (forall i :: 0 < i < |w.sent| ==> Follows(w.sent[i - 1], w.sent[i]))
    && (w.sent == [] ==> w.steps == 0)
    && (w.sent != [] ==> w.sent[0].hop == 0)
    && (w.steps == 0 ==> w.servers == env.roots)
    && (w.minimize ==> env.cfg.minimize)
    && (w.sent != [] ==>
          var q := w.sent[|w.sent| - 1];
          && (w.steps == 0 || (w.qname == q.current && w.steps == q.hop + 1))
          && (w.minimize ==> q.minimized))
    && (forall i, j :: 0 <= i < j < |w.sent| && FellBack(env, w, i) ==> !w.sent[j].minimized)
    && (forall i :: 0 <= i < |w.sent| && FellBack(env, w, i) ==> !w.minimize)
  }

  ghost predicate Good(env: Env, name: Bytes, qtype: uint16, w: Walk) {
    && Bounded(env, w) && Fresh(w) && Chained(env, name, w) && Currents(name, w) && Disciplined(env, qtype, w)
    && Normalize(w.qname) == w.qname
  }

  lemma StartGood(env: Env, name: Bytes, qtype: uint16)
    requires Normalize(name) == name
    ensures Good(env, name, qtype, Start(env, name))
  {
    hide Normalize;
  }

  /** What a finished walk has kept: all but the facts about the round to come. */
  ghost predicate Sound(env: Env, name: Bytes, qtype: uint16, w: Walk) {
    && Bounded(env, w) && Fresh(w) && Chained(env, name, w) && Currents(name, w) && Normalize(w.qname) == w.qname
    && (w.sent != [] ==> w.sent[0].hop == 0)
    && (forall i :: 0 <= i < |w.sent| ==> WellFormed(env, w.sent[i], qtype))
    && (forall i :: 0 < i < |w.sent| ==> Follows(w.sent[i - 1], w.sent[i]))
    && (forall i, j :: 0 <= i < j < |w.sent| && FellBack(env, w, i) ==> !w.sent[j].minimized)
  }

  // ---- one round keeps it ----

  lemma SendBounded(env: Env, qtype: uint16, w: Walk)
    requires Bounded(env, w) && w.steps < env.cfg.maxDepth
    ensures Bounded(env, Send(w, NextQuery(w, qtype)))
  {
    hide NextQuery, KeyOf;
  }

  lemma SendFresh(w: Walk, q: Query)
    requires Fresh(w) && KeyOf(q) !in w.states
    ensures Fresh(Send(w, q))
  {
    hide KeyOf;
    var v := Send(w, q);
    forall k
      ensures k in v.states <==> exists i :: 0 <= i < |v.sent| && KeyOf(v.sent[i]) == k
    {
      if k in w.states {
        var i :| 0 <= i < |w.sent| && KeyOf(w.sent[i]) == k;
        assert KeyOf(v.sent[i]) == k;
      } else if k == KeyOf(q) {
        assert KeyOf(v.sent[|w.sent|]) == k;
      }
    }
  }

  lemma SendDisciplined(env: Env, qtype: uint16, w: Walk)
    requires Disciplined(env, qtype, w) && Normalize(w.qname) == w.qname
    ensures var v := Send(w, NextQuery(w, qtype));
            && (forall i :: 0 <= i < |v.sent| ==> WellFormed(env, v.sent[i], qtype))
            && (forall i :: 0 < i < |v.sent| ==> Follows(v.sent[i - 1], v.sent[i]))
            && (forall i, j :: 0 <= i < j < |v.sent| && FellBack(env, v, i) ==> !v.sent[j].minimized)
            && (forall i :: 0 <= i < |w.sent| && FellBack(env, v, i) ==> !v.minimize)
            && v.sent[0].hop == 0
  {
    hide Normalize, MinimizedName, KeyOf, FellBack;
    var q := NextQuery(w, qtype);
    SendFellBack(env, qtype, w, q);
    assert WellFormed(env, q, qtype);
    assert w.sent != [] ==> Follows(w.sent[|w.sent| - 1], q);
    hide WellFormed, Follows, NextQuery;
  }

  lemma SendFellBack(env: Env, qtype: uint16, w: Walk, q: Query)
    requires Disciplined(env, qtype, w) && q.minimized == w.minimize
    ensures var v := Send(w, q);
            && (forall i, j :: 0 <= i < j < |v.sent| && FellBack(env, v, i) ==> !v.sent[j].minimized)
            && (forall i :: 0 <= i < |w.sent| && FellBack(env, v, i) ==> !v.minimize)
  {
    hide WellFormed, Follows, KeyOf;
    assert forall i :: 0 <= i < |w.sent| && FellBack(env, Send(w, q), i) ==> FellBack(env, w, i);
  }

  lemma SendChained(env: Env, name: Bytes, qtype: uint16, w: Walk)
    requires Chained(env, name, w)
    ensures Chained(env, name, Send(w, NextQuery(w, qtype)))
  {
    hide Aliased, KeyOf, DistinctTargets, NextQuery;
    var v := Send(w, NextQuery(w, qtype));
    forall i | 0 <= i < |v.chain|
      ensures JustifiedAt(env, name, v, i)
    {
      assert JustifiedAt(env, name, w, i);
    }
  }

  lemma SendCurrents(name: Bytes, w: Walk, q: Query)
    requires Currents(name, w) && w.qname == Before(name, w.chain, |w.chain|) && q.current == w.qname
    ensures Currents(name, Send(w, q))
  {
    hide KeyOf;
    var v := Send(w, q);
    forall k | 0 <= k < |v.sent|
      ensures Resolved(name, v.chain, v.sent[k].current, Asked(v))
    {
      if k < |w.sent| {
        assert Resolved(name, w.chain, w.sent[k].current, Asked(w));
      } else {
        assert Before(name, v.chain, |v.chain|) == q.current;
      }
    }
  }

  /** Sending the query of a round. */
  lemma SendGood(env: Env, name: Bytes, qtype: uint16, w: Walk)
    requires Good(env, name, qtype, w) && w.steps < env.cfg.maxDepth && KeyOf(NextQuery(w, qtype)) !in w.states
    ensures Sound(env, name, qtype, Send(w, NextQuery(w, qtype)))
  {
    assert w.qname == Before(name, w.chain, |w.chain|);
    hide NextQuery, KeyOf, Normalize, Bounded, Fresh, Chained, Currents, Disciplined, WellFormed, Follows, FellBack;
    SendBounded(env, qtype, w);
    SendFresh(w, NextQuery(w, qtype));
    SendDisciplined(env, qtype, w);
    SendChained(env, name, qtype, w);
    NextQueryIs(w, qtype);
    SendCurrents(name, w, NextQuery(w, qtype));
  }

  /** Following an alias that the reply to the query just sent has named. */
  lemma FollowChained(env: Env, name: Bytes, u: Walk, w: Walk, target: Bytes)
    requires Chained(env, name, u) && Chained(env, name, w) && |w.sent| == |u.sent| + 1
    requires w.chain == u.chain && w.followed == u.followed && w.sent[|u.sent|].current == w.qname
    requires Normalize(target) == target && target !in w.aliases
    requires Aliased(env, |w.sent| - 1, w.qname, target)
    ensures Chained(env, name, Follow(env, w, target))
  {
    hide Aliased, DistinctTargets;
    var v := Follow(env, w, target);
    TargetsGrow(w.chain, w.aliases, target);
    hide Normalize, ToLower;
    forall i | 0 <= i < |v.chain|
      ensures JustifiedAt(env, name, v, i)
    {
      if i < |w.chain| {
        assert JustifiedAt(env, name, w, i);
      } else if i > 0 {
        assert JustifiedAt(env, name, u, i - 1);
      }
    }
  }

  lemma TargetsGrow(chain: seq<Bytes>, aliases: set<Bytes>, target: Bytes)
    requires DistinctTargets(chain, aliases) && Normalize(target) == target && target !in aliases
    ensures DistinctTargets(chain + [target], aliases + {ToLower(Normalize(target))})
  {
    LowerNormal(target);
    hide Normalize, ToLower;
  }

  lemma FollowCurrents(env: Env, name: Bytes, w: Walk, target: Bytes)
    requires Currents(name, w) && w.steps > 0 && w.sent != []
    ensures Currents(name, Follow(env, w, target))
  {
    hide Normalize, ToLower;
    var v := Follow(env, w, target);
    forall k | 0 <= k < |v.sent|
      ensures Resolved(name, v.chain, v.sent[k].current, Asked(v))
    {
      assert Resolved(name, w.chain, w.sent[k].current, Asked(w));
      var i: nat :| i < Asked(w) && Before(name, w.chain, i) == w.sent[k].current;
      assert Before(name, v.chain, i) == w.sent[k].current;
    }
  }

  lemma FollowBounded(env: Env, w: Walk, target: Bytes)
    requires Bounded(env, w) && w.depth < env.cfg.maxCNAME && w.sent != []
    ensures Bounded(env, Follow(env, w, target))
  {
    hide Normalize, ToLower;
    var d := AtLeastZero(env.cfg.maxDepth);
    assert (w.depth + 1) * d == w.depth * d + d;
  }

  lemma TargetNormal(rrs: seq<ResourceRecord>, qname: Bytes)
    ensures FindCNAME(rrs, qname).Some? ==> Normalize(FindCNAME(rrs, qname).value) == FindCNAME(rrs, qname).value
  {
    hide Normalize, FindCNAME;
    var t := FindCNAME(rrs, qname);
    if t.Some? {
      var i :| 0 <= i < |rrs| && AliasOf(rrs[i], qname) && t.value == Normalize(rrs[i].data.value.cname);
      NormalizeTwice(rrs[i].data.value.cname);
    }
  }

  /** A round keeps everything; a round that ends the walk keeps what concerns the past. */
  lemma RoundGood(env: Env, name: Bytes, qtype: uint16, w: Walk)
    requires Good(env, name, qtype, w) && w.steps < env.cfg.maxDepth
    ensures var t := Round(env, qtype, w);
            if t.Next? then Good(env, name, qtype, t.walk) else Sound(env, name, qtype, t.last)
  {
    hide NextQuery, KeyOf, Normalize, Bounded, Fresh, Chained, Currents, Disciplined, WellFormed, Follows, FellBack, Follow, FindCNAME,
      HasAnswer, ShouldCacheAsNODATA, NextServers;
    var q := NextQuery(w, qtype);
    if KeyOf(q) in w.states {
      GoodSound(env, name, qtype, w);
    } else {
      SendGood(env, name, qtype, w);
      var v := Send(w, q);
      NextQueryIs(w, qtype);
      var r := env.reply(|w.sent|);
      if r.Got? {
        ReactGood(env, name, qtype, w, v, r.message);
      }
    }
  }

  lemma GoodSound(env: Env, name: Bytes, qtype: uint16, w: Walk)
    requires Good(env, name, qtype, w)
    ensures Sound(env, name, qtype, w)
  {
    hide Normalize, Bounded, Fresh, Chained, Currents, WellFormed, Follows, FellBack;
  }

  lemma NextQueryIs(w: Walk, qtype: uint16)
    ensures var q := NextQuery(w, qtype); q.current == w.qname && q.hop == w.steps && q.minimized == w.minimize
  {
  }

  /** Whether the last query, refused or not, ended minimisation. */
  lemma ReactGood(env: Env, name: Bytes, qtype: uint16, w: Walk, v: Walk, m: Message)
    requires Good(env, name, qtype, w) && v == Send(w, NextQuery(w, qtype)) && Sound(env, name, qtype, v)
    requires env.reply(|w.sent|) == Got(m)
    ensures var t := React(env, qtype, v, NextQuery(w, qtype), m);
            if t.Next? then Good(env, name, qtype, t.walk) else t.last == v
  {
    hide NextQuery, KeyOf, Normalize, ToLower, Bounded, Fresh, Chained, Currents, Disciplined, WellFormed, Follows, FindCNAME,
      HasAnswer, ShouldCacheAsNODATA, NextServers;
    var q := NextQuery(w, qtype);
    NextQueryIs(w, qtype);
    var t := React(env, qtype, v, q, m);
    var target := FindCNAME(m.answers, v.qname);
    if t.Next? {
      if m.header.rcode == RCODE_NAME_ERROR {
        KeptBounds(env, name, v, t.walk);
        StillDisciplined(env, qtype, w, q, t.walk);
      } else if target.Some? && qtype != TYPE_CNAME {
        TargetNormal(m.answers, v.qname);
        LowerNormal(target.value);
        FollowChained(env, name, w, v, target.value);
        FollowCurrents(env, name, v, target.value);
        FollowBounded(env, v, target.value);
        KeptFresh(v, t.walk);
        StillDisciplined(env, qtype, w, q, t.walk);
      } else {
        KeptBounds(env, name, v, t.walk);
        StillDisciplined(env, qtype, w, q, t.walk);
      }
    }
  }

  lemma LowerNormal(n: Bytes)
    requires Normalize(n) == n
    ensures ToLower(n) == n
  {
    NormalizeShape(n);
    LowerFixed(n);
  }

  lemma KeptFresh(v: Walk, u: Walk)
    requires Fresh(v) && u.states == v.states && u.sent == v.sent
    ensures Fresh(u)
  {
    hide KeyOf;
  }

  lemma KeptBounds(env: Env, name: Bytes, v: Walk, u: Walk)
    requires Bounded(env, v) && Fresh(v) && Chained(env, name, v) && Currents(name, v)
    requires u == v.(servers := u.servers, minimize := u.minimize)
    ensures Bounded(env, u) && Fresh(u) && Chained(env, name, u) && Currents(name, u)
  {
    hide KeyOf, DistinctTargets, Aliased, Resolved;
    forall i | 0 <= i < |u.chain|
      ensures JustifiedAt(env, name, u, i)
    {
      assert JustifiedAt(env, name, v, i);
    }
  }

  /** The discipline after a round that goes on. */
  lemma StillDisciplined(env: Env, qtype: uint16, w: Walk, q: Query, u: Walk)
    requires Disciplined(env, qtype, w) && Normalize(w.qname) == w.qname && q == NextQuery(w, qtype)
    requires u.sent == w.sent + [q] && (u.steps == 0 || (u.steps == w.steps + 1 && u.qname == w.qname))
    requires u.minimize ==> w.minimize
    requires u.steps == 0 ==> u.servers == env.roots
    requires env.reply(|w.sent|).Got?
    requires env.reply(|w.sent|).message.header.rcode == RCODE_NAME_ERROR && q.name != q.current ==> !u.minimize
    ensures Disciplined(env, qtype, u)
  {
    hide Normalize, KeyOf, WellFormed, Follows, NextQuery;
    SendDisciplined(env, qtype, w);
    NextQueryIs(w, qtype);
    var v := Send(w, q);
    assert v.sent == u.sent;
    assert forall i :: 0 <= i < |u.sent| ==> FellBack(env, u, i) == FellBack(env, v, i);
    assert forall i :: 0 <= i < |w.sent| && FellBack(env, u, i) ==> FellBack(env, w, i);
  }

  // ---- every run ----

  lemma {:induction false} RunSound(env: Env, name: Bytes, qtype: uint16, w: Walk)
    requires Good(env, name, qtype, w)
    ensures Sound(env, name, qtype, Run(env, qtype, w).1)
    decreases AtLeastZero(env.cfg.maxCNAME - w.depth), AtLeastZero(env.cfg.maxDepth - w.steps)
  {
    hide Good, Sound, Round, Run;
    RunUnfolds(env, qtype, w);
    if w.steps < env.cfg.maxDepth {
      RoundGood(env, name, qtype, w);
      RoundMoves(env, qtype, w);
      var t := Round(env, qtype, w);
      if t.Next? {
        RunSound(env, name, qtype, t.walk);
      }
    } else {
      GoodSound(env, name, qtype, w);
    }
  }

  /** The end of a run from a normalised name. */
  function Finished(env: Env, name: Bytes, qtype: uint16): (Outcome, Walk) {
    Run(env, qtype, Start(env, name))
  }

  lemma FinishedSound(env: Env, name: Bytes, qtype: uint16)
    requires Normalize(name) == name
    ensures Sound(env, name, qtype, Finished(env, name, qtype).1)
  {
    hide Good, Sound, Run;
    StartGood(env, name, qtype);
    RunSound(env, name, qtype, Start(env, name));
  }

  /** Whatever the upstream does, at most (maxCNAME + 1) * maxDepth queries are sent. */
  lemma QueriesBounded(env: Env, name: Bytes, qtype: uint16)
    requires Normalize(name) == name
    ensures |Finished(env, name, qtype).1.sent| <= (AtLeastZero(env.cfg.maxCNAME) + 1) * AtLeastZero(env.cfg.maxDepth)
  {
    hide Run, Normalize, Fresh, Chained, Currents, WellFormed, Follows, FellBack;
    FinishedSound(env, name, qtype);
    var w := Finished(env, name, qtype).1;
    var c, d := AtLeastZero(env.cfg.maxCNAME), AtLeastZero(env.cfg.maxDepth);
    assert w.depth * d <= c * d;
    assert (c + 1) * d == c * d + d;
  }

  /** The same name, type and set of servers are never queried twice. */
  lemma NoStateTwice(env: Env, name: Bytes, qtype: uint16, i: nat, j: nat)
    requires Normalize(name) == name && i < j < |Finished(env, name, qtype).1.sent|
    ensures var p, q := Finished(env, name, qtype).1.sent[i], Finished(env, name, qtype).1.sent[j];
            !(Normalize(p.name) == Normalize(q.name) && p.typ == q.typ && multiset(p.servers) == multiset(q.servers))
  {
    hide Run, Normalize, Bounded, Chained, WellFormed, Follows, FellBack, StateKey;
    FinishedSound(env, name, qtype);
    var p, q := Finished(env, name, qtype).1.sent[i], Finished(env, name, qtype).1.sent[j];
    StateKeyExact(p.name, p.typ, p.servers, q.name, q.typ, q.servers);
  }

  /**
   The aliases followed are at most maxCNAME pairwise distinct names, and each was named by a
   CNAME record owned by the one before, in a reply that was received and was not NXDOMAIN.
   */
  lemma AliasDiscipline(env: Env, name: Bytes, qtype: uint16)
    requires Normalize(name) == name
    ensures var w := Finished(env, name, qtype).1;
            && w.depth == |w.chain| == |w.followed| <= AtLeastZero(env.cfg.maxCNAME)
            && w.qname == Before(name, w.chain, |w.chain|)
            && (forall i, j :: 0 <= i < j < |w.chain| ==> w.chain[i] != w.chain[j])
            && (forall i :: 0 <= i < |w.chain| ==> JustifiedAt(env, name, w, i))
  {
    hide Run, Normalize, Fresh, WellFormed, Follows, FellBack, JustifiedAt;
    FinishedSound(env, name, qtype);
  }

  /**
   Every query is for the whole name then being resolved or for its last hop + 1 labels (and
   then for NS records); the next query is one hop further on or for the next alias; and a
   minimised name is refused at most once, minimisation being over from then on.
   */
  lemma MinimisationDiscipline(env: Env, name: Bytes, qtype: uint16)
    requires Normalize(name) == name
    ensures var w := Finished(env, name, qtype).1;
            && (forall i :: 0 <= i < |w.sent| ==> WellFormed(env, w.sent[i], qtype))
            && (forall i :: 0 < i < |w.sent| ==> Follows(w.sent[i - 1], w.sent[i]))
            && (forall i, j :: 0 <= i < j < |w.sent| ==> !(FellBack(env, w, i) && FellBack(env, w, j)))
            && (forall i, j :: 0 <= i < j < |w.sent| && FellBack(env, w, i) ==> w.sent[j].name == w.sent[j].current)
  {
    hide Run, Normalize, Fresh, Chained, Bounded, Follows;
    FinishedSound(env, name, qtype);
    var w := Finished(env, name, qtype).1;
    assert forall i :: 0 <= i < |w.sent| ==> WellFormed(env, w.sent[i], qtype);
  }

  // ---- what a run may return ----

  /** What an answer means: it is the last reply received, to a query for the name then being resolved. */
  ghost predicate Justified(env: Env, qtype: uint16, r: (Outcome, Walk)) {
    var (outcome, w) := r;
    match outcome
    case Answered(m) =>
      && w.sent != [] && env.reply(|w.sent| - 1) == Got(m)
      && var q := w.sent[|w.sent| - 1];
      && q.current == w.qname
      && (m.header.rcode == RCODE_NAME_ERROR ==> q.name == Normalize(w.qname))
      && (m.header.rcode != RCODE_NAME_ERROR ==> qtype == TYPE_CNAME || FindCNAME(m.answers, w.qname).None?)
      && (m.header.rcode == RCODE_NO_ERROR ==>
            || HasAnswer(m.answers, w.qname, qtype) || ShouldCacheAsNODATA(m, w.qname, qtype)
            || (NextServers(env.net(|w.sent| - 1), m).0 == [] && (m.header.aa || m.answers != [] || m.authorities != [])))
    case Failure(reason) =>
      && (reason == TooDeep ==> w.steps >= env.cfg.maxDepth)
      && (reason == RepeatedState ==> KeyOf(NextQuery(w, qtype)) in w.states)
      && (reason == UpstreamError ==> w.sent != [] && env.reply(|w.sent| - 1) == Failed)
      && (reason == NilResponse ==> w.sent != [] && env.reply(|w.sent| - 1) == Empty)
      && (reason == TooManyAliases ==> w.depth >= env.cfg.maxCNAME)
      && (reason == RepeatedAlias ==>
            && w.sent != [] && env.reply(|w.sent| - 1).Got?
            && var t := FindCNAME(env.reply(|w.sent| - 1).message.answers, w.qname);
            t.Some? && ToLower(Normalize(t.value)) in w.aliases)
  }

  lemma RoundJustified(env: Env, qtype: uint16, w: Walk)
    ensures var t := Round(env, qtype, w); t.Done? ==> Justified(env, qtype, (t.outcome, t.last))
  {
    hide KeyOf, Normalize, ToLower, FindCNAME, HasAnswer, ShouldCacheAsNODATA, NextServers, MinimizedName, React, AliasOf, IsAnswer;
    var r := env.reply(|w.sent|);
    if r.Got? {
      ReactJustified(env, qtype, Send(w, NextQuery(w, qtype)), NextQuery(w, qtype), r.message);
    }
  }

  lemma ReactJustified(env: Env, qtype: uint16, w: Walk, q: Query, m: Message)
    requires w.sent != [] && w.sent[|w.sent| - 1] == q && q.current == w.qname && env.reply(|w.sent| - 1) == Got(m)
    ensures var t := React(env, qtype, w, q, m); t.Done? ==> Justified(env, qtype, (t.outcome, t.last))
  {
    hide KeyOf, Normalize, ToLower, FindCNAME, HasAnswer, ShouldCacheAsNODATA, NextServers, NextQuery, AliasOf, IsAnswer;
  }

  /** Every run ends in one of the documented ways; what it answers with is the reply to its last query. */
  lemma {:induction false} OutcomeJustified(env: Env, qtype: uint16, w: Walk)
    ensures Justified(env, qtype, Run(env, qtype, w))
    decreases AtLeastZero(env.cfg.maxCNAME - w.depth), AtLeastZero(env.cfg.maxDepth - w.steps)
  {
    hide Round, Run;
    RunUnfolds(env, qtype, w);
    if w.steps < env.cfg.maxDepth {
      RoundMoves(env, qtype, w);
      hide Justified;
      RoundJustified(env, qtype, w);
      var t := Round(env, qtype, w);
      if t.Next? {
        OutcomeJustified(env, qtype, t.walk);
      }
    }
  }

  /** NXDOMAIN is only ever returned for the whole name. */
  lemma NameErrorIsForWholeName(env: Env, name: Bytes, qtype: uint16)
    requires Finished(env, name, qtype).0.Answered?
    requires Finished(env, name, qtype).0.message.header.rcode == RCODE_NAME_ERROR
    ensures var w := Finished(env, name, qtype).1;
            w.sent != [] && w.sent[|w.sent| - 1].name == Normalize(w.qname)
  {
    hide Run, Normalize;
    OutcomeJustified(env, qtype, Start(env, name));
  }

  /** A reply holding a CNAME for the name in hand is never returned for another type, unless it is NXDOMAIN. */
  lemma AliasNeverReturned(env: Env, name: Bytes, qtype: uint16)
    requires Finished(env, name, qtype).0.Answered? && qtype != TYPE_CNAME
    requires Finished(env, name, qtype).0.message.header.rcode != RCODE_NAME_ERROR
    ensures var (outcome, w) := Finished(env, name, qtype);
            forall i :: 0 <= i < |outcome.message.answers| ==> !AliasOf(outcome.message.answers[i], w.qname)
  {
    hide Run, Normalize;
    OutcomeJustified(env, qtype, Start(env, name));
  }

  /** With servers given as IP texts, a walk is stopped for a repeated state only when it really repeats one. */
  lemma RepeatIsReal(env: Env, name: Bytes, qtype: uint16)
    requires Normalize(name) == name && Finished(env, name, qtype).0 == Failure(RepeatedState)
    requires var w := Finished(env, name, qtype).1;
             && (forall i :: 0 <= i < |w.sent| ==> forall x :: x in w.sent[i].servers ==> Plain(x))
             && (forall x :: x in w.servers ==> Plain(x))
    ensures var w := Finished(env, name, qtype).1;
            var q := NextQuery(w, qtype);
            exists i :: 0 <= i < |w.sent| && Normalize(w.sent[i].name) == Normalize(q.name) && w.sent[i].typ == q.typ
                        && multiset(w.sent[i].servers) == multiset(q.servers)
  {
    hide Run, Normalize, Plain, StateKey, Bounded, Chained, WellFormed, Follows, FellBack, MinimizedName;
    OutcomeJustified(env, qtype, Start(env, name));
    FinishedSound(env, name, qtype);
    var w := Finished(env, name, qtype).1;
    var q := NextQuery(w, qtype);
    var i :| 0 <= i < |w.sent| && KeyOf(w.sent[i]) == KeyOf(q);
    StateKeyExact(w.sent[i].name, w.sent[i].typ, w.sent[i].servers, q.name, q.typ, q.servers);
  }
}
