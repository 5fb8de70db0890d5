/**
 resolveRecursive (internal/resolver/recursive.go) against an arbitrary upstream: what it may
 send, for how long, and what it may return.
 */
module Recursion {
  import opened Octets
  import opened Names
  import opened Records
  import opened Domains
  import opened Keys
  import opened Answers
  import opened Referrals

  datatype Config = Config(maxDepth: int, maxCNAME: int, minimize: bool)

  /** What an upstream query comes back with: an error, no message, or a message. */
  datatype Reply = Failed | Empty | Got(message: Message)

  /** The n-th reply and the n-th round of address lookups are whatever the network makes them. */
  datatype Env = Env(cfg: Config, roots: seq<Bytes>, reply: nat -> Reply, net: nat -> Net)

  datatype Reason = RepeatedState | UpstreamError | NilResponse | TooManyAliases | RepeatedAlias | NoServers | TooDeep

  datatype Outcome = Answered(message: Message) | Failure(reason: Reason)

  /** A query sent upstream, with the name being resolved, the hop and whether names were minimised. */
  datatype Query = Query(name: Bytes, typ: uint16, servers: seq<Bytes>, current: Bytes, hop: nat, minimized: bool)

  /** The variables of the loop, with the queries sent, the targets followed so far, and the queries whose replies named them. */
  datatype Walk = Walk(qname: Bytes, servers: seq<Bytes>, steps: nat, depth: nat, minimize: bool,
                       aliases: set<Bytes>, states: set<Bytes>, sent: seq<Query>, chain: seq<Bytes>,
                       followed: seq<nat>)

  datatype Turn = Next(walk: Walk) | Done(outcome: Outcome, last: Walk)

  function Start(env: Env, qname: Bytes): Walk {
    Walk(qname, env.roots, 0, 0, env.cfg.minimize, {}, {}, [], [], [])
  }

  /** The query of the coming round. */
  function NextQuery(w: Walk, qtype: uint16): Query {
    var name := if w.minimize then MinimizedName(w.qname, w.steps) else w.qname;
    Query(name, if w.minimize && name != Normalize(w.qname) then TYPE_NS else qtype, w.servers, w.qname, w.steps, w.minimize)
  }

  function KeyOf(q: Query): Bytes {
    StateKey(q.name, q.typ, q.servers)
  }

  function Send(w: Walk, q: Query): Walk {
    w.(steps := w.steps + 1, states := w.states + {KeyOf(q)}, sent := w.sent + [q])
  }

  function Follow(env: Env, w: Walk, target: Bytes): Walk
    requires w.sent != []
  {
    w.(qname := target, servers := env.roots, steps := 0, depth := w.depth + 1,
       aliases := w.aliases + {ToLower(Normalize(target))}, chain := w.chain + [target], followed := w.followed + [|w.sent| - 1])
  }

  /** What a round does with the reply to `q`; `w` is the walk after sending it. */
  function React(env: Env, qtype: uint16, w: Walk, q: Query, m: Message): Turn
    requires w.sent != []
  {
    var target := FindCNAME(m.answers, w.qname);
    if m.header.rcode == RCODE_NAME_ERROR then
      if q.name != Normalize(w.qname) then Next(w.(minimize := false)) else Done(Answered(m), w)
    else if target.Some? && qtype != TYPE_CNAME then
      if w.depth >= env.cfg.maxCNAME then Done(Failure(TooManyAliases), w)
      else if ToLower(Normalize(target.value)) in w.aliases then Done(Failure(RepeatedAlias), w)
      else Next(Follow(env, w, target.value))
    else if HasAnswer(m.answers, w.qname, qtype) || ShouldCacheAsNODATA(m, w.qname, qtype) || m.header.rcode != RCODE_NO_ERROR then
      Done(Answered(m), w)
    else
      var servers := NextServers(env.net(|w.sent| - 1), m).0;
      if servers != [] then Next(w.(servers := servers))
      else if m.header.aa || m.answers != [] || m.authorities != [] then Done(Answered(m), w)
      else Done(Failure(NoServers), w)
  }

  /** One round of the loop. */
  function Round(env: Env, qtype: uint16, w: Walk): Turn {
    var q := NextQuery(w, qtype);
    if KeyOf(q) in w.states then Done(Failure(RepeatedState), w)
    else
      var v := Send(w, q);
      match env.reply(|w.sent|)
      case Failed => Done(Failure(UpstreamError), v)
      case Empty => Done(Failure(NilResponse), v)
      case Got(m) => React(env, qtype, v, q, m)
  }

  function AtLeastZero(n: int): nat {
    if n < 0 then 0 else n
  }

  /**
   The loop. The step counter starts again at every alias followed, so what decreases is the
   number of aliases left, and among rounds for one name the number of steps left.
   */
  function Run(env: Env, qtype: uint16, w: Walk): (Outcome, Walk)
    decreases AtLeastZero(env.cfg.maxCNAME - w.depth), AtLeastZero(env.cfg.maxDepth - w.steps)
  {
    if w.steps >= env.cfg.maxDepth then (Failure(TooDeep), w)
    else
      hide Round;
      RoundMoves(env, qtype, w);
      var t := Round(env, qtype, w);
      if t.Next? then Run(env, qtype, t.walk) else (t.outcome, t.last)
  }

  /** A round takes one more step for the same name, or follows one more alias. */
  lemma RoundMoves(env: Env, qtype: uint16, w: Walk)
    ensures var t := Round(env, qtype, w);
            t.Next? ==>
              || (t.walk.depth == w.depth && t.walk.steps == w.steps + 1)
              || (t.walk.depth == w.depth + 1 && t.walk.steps == 0 && w.depth < env.cfg.maxCNAME)
  {
    hide NextQuery, KeyOf, FindCNAME, HasAnswer, ShouldCacheAsNODATA, NextServers, Normalize, ToLower;
  }

  // ---- as it is built ----

  /** What a run leaves: its outcome, the queries sent and the aliases followed. */
  function Ended(r: (Outcome, Walk)): (Outcome, seq<Query>, seq<Bytes>) {
    (r.0, r.1.sent, r.1.chain)
  }

  method ResolveRecursive(env: Env, name: Bytes, qtype: uint16) returns (outcome: Outcome, sent: seq<Query>, chain: seq<Bytes>)
    ensures (outcome, sent, chain) == Ended(Run(env, qtype, Start(env, name)))
  {
    hide NextQuery, KeyOf, FindCNAME, HasAnswer, ShouldCacheAsNODATA, NextServers, Normalize, ToLower, Run, AliasOf, IsAnswer;
    var qname, servers, depth, steps := name, env.roots, 0, 0;
    var visitedCNAME, visitedStates: set<Bytes> := {}, {};
    var minimize := env.cfg.minimize;
    sent, chain := [], [];
    ghost var followed: seq<nat> := [];
    ghost var all := Run(env, qtype, Start(env, name));
    while steps < env.cfg.maxDepth
      invariant steps >= 0 && depth >= 0
      invariant Run(env, qtype, Walk(qname, servers, steps, depth, minimize, visitedCNAME, visitedStates, sent, chain, followed)) == all
      decreases AtLeastZero(env.cfg.maxCNAME - depth), AtLeastZero(env.cfg.maxDepth - steps)
    {
      ghost var w := Walk(qname, servers, steps, depth, minimize, visitedCNAME, visitedStates, sent, chain, followed);
      RunUnfolds(env, qtype, w);
      RoundMoves(env, qtype, w);
      steps := steps + 1;
      var q := NextQuery(Walk(qname, servers, steps - 1, depth, minimize, {}, {}, [], [], []), qtype);
      NextQueryOf(w, Walk(qname, servers, steps - 1, depth, minimize, {}, {}, [], [], []), qtype);
      var state := KeyOf(q);
      if state in visitedStates {
        return Failure(RepeatedState), sent, chain;
      }
      visitedStates := visitedStates + {state};
      var reply := env.reply(|sent|);
      var net := env.net(|sent|);
      sent := sent + [q];
      if reply.Failed? {
        return Failure(UpstreamError), sent, chain;
      }
      if reply.Empty? {
        return Failure(NilResponse), sent, chain;
      }
      var resp := reply.message;
      ghost var v := Send(w, q);
      assert Round(env, qtype, w) == React(env, qtype, v, q, resp);
      assert v == Walk(qname, servers, steps, depth, minimize, visitedCNAME, visitedStates, sent, chain, followed);
      hide Round, Send;
      if resp.header.rcode == RCODE_NAME_ERROR {
        if q.name != Normalize(qname) {
          minimize := false;
          continue;
        }
        return Answered(resp), sent, chain;
      }
      var target := FindCNAME(resp.answers, qname);
      if target.Some? && qtype != TYPE_CNAME {
        if depth >= env.cfg.maxCNAME {
          return Failure(TooManyAliases), sent, chain;
        }
        var n := ToLower(Normalize(target.value));
        if n in visitedCNAME {
          return Failure(RepeatedAlias), sent, chain;
        }
        visitedCNAME := visitedCNAME + {n};
        depth := depth + 1;
        chain := chain + [target.value];
        followed := followed + [|sent| - 1];
        qname := target.value;
        servers := env.roots;
        steps := 0;
        continue;
      }
      var done, nextServers := Conclude(env, qtype, qname, net, resp, v, q);
      if done.Some? {
        return done.value, sent, chain;
      }
      servers := nextServers;
    }
    RunUnfolds(env, qtype, Walk(qname, servers, steps, depth, minimize, visitedCNAME, visitedStates, sent, chain, followed));
    return Failure(TooDeep), sent, chain;
  }

  /** The end of a round without NXDOMAIN or alias: an answer, or the servers to ask next. */
  method Conclude(env: Env, qtype: uint16, qname: Bytes, net: Net, resp: Message, ghost w: Walk, ghost q: Query)
      returns (done: Option<Outcome>, servers: seq<Bytes>)
    requires w.sent != [] && w.qname == qname && net == env.net(|w.sent| - 1)
    requires resp.header.rcode != RCODE_NAME_ERROR && (FindCNAME(resp.answers, qname).None? || qtype == TYPE_CNAME)
    ensures React(env, qtype, w, q, resp) == if done.Some? then Done(done.value, w) else Next(w.(servers := servers))
  {
    hide FindCNAME, HasAnswer, ShouldCacheAsNODATA, NextServers, Normalize, ToLower, AliasOf, IsAnswer;
    servers := [];
    if HasAnswer(resp.answers, qname, qtype) {
      return Some(Answered(resp)), servers;
    }
    if ShouldCacheAsNODATA(resp, qname, qtype) {
      return Some(Answered(resp)), servers;
    }
    if resp.header.rcode != RCODE_NO_ERROR {
      return Some(Answered(resp)), servers;
    }
    var nextServers, _ := NextReferralServers(net, resp);
    if |nextServers| == 0 {
      if resp.header.aa || |resp.answers| > 0 || |resp.authorities| > 0 {
        return Some(Answered(resp)), servers;
      }
      return Some(Failure(NoServers)), servers;
    }
    return None, nextServers;
  }

  lemma RunUnfolds(env: Env, qtype: uint16, w: Walk)
    ensures var t := Round(env, qtype, w);
            Run(env, qtype, w) == if w.steps >= env.cfg.maxDepth then (Failure(TooDeep), w)
                                  else if t.Next? then Run(env, qtype, t.walk) else (t.outcome, t.last)
  {
    hide Round;
  }

  lemma NextQueryOf(w: Walk, v: Walk, qtype: uint16)
    requires w.qname == v.qname && w.servers == v.servers && w.steps == v.steps && w.minimize == v.minimize
    ensures NextQuery(w, qtype) == NextQuery(v, qtype)
  {
    hide MinimizedName, Normalize;
  }
}
