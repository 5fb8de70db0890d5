/**
 Resolve (internal/resolver/resolver.go): the cache in front of the recursive walk, what is
 stored of an answer, and that the same question is then answered without the network.
 */
module Resolving {
  import opened Octets
  import opened Records
  import opened Domains
  import opened Keys
  import opened Answers
  import opened CacheSpec
  import opened CacheRuns
  import opened Recursion
  import opened RecursionRuns

  /** The readings of the cache's clock: for the two lookups, and once the network has answered. */
  datatype Clock = Clock(first: int, second: int, third: int)

  /** `queries` is the number of queries sent upstream. */
  datatype Resolved = Resolved(message: Message, cached: bool, stale: bool, staleOnError: bool, blocked: bool, queries: nat)

  /** negativeCacheMessage, and nxdomainMessage with its code. */
  function NegativeMessage(name: Bytes, qtype: uint16, rcode: byte): Message {
    Message(Header(0, true, 0, false, false, true, true, 0, rcode, 0, 0, 0, 0), [Question(name, qtype, CLASS_IN)], [], [], [])
  }

  /** A response with this code and no records, to exactly this question of class IN (1). */
  predicate SaysNo(r: Message, name: Bytes, qtype: uint16, rcode: int) {
    && r.header.rcode == rcode && r.header.qr && r.header.rd && r.header.ra && !r.header.aa && !r.header.tc
    && r.header.opcode == 0 && r.header.z == 0
    && r.questions == [Question(name, qtype, 1)] && r.answers == [] && r.authorities == [] && r.additionals == []
  }

  lemma NegativeSaysNo(name: Bytes, qtype: uint16, rcode: byte)
    ensures SaysNo(NegativeMessage(name, qtype, rcode), name, qtype, rcode)
  {
  }

  /** A blocked name is answered with NXDOMAIN (3) at once; the cache is neither asked nor changed. */
  lemma BlockedSaysNo(s: State, env: Env, qname: Bytes, qtype: uint16, clock: Clock)
    ensures var (t, r) := Resolve(s, true, env, qname, qtype, clock);
            && t == s && r.Some? && r.value.blocked && !r.value.cached && r.value.queries == 0
            && SaysNo(r.value.message, Normalize(qname), qtype, 3)
  {
  }

  /** What Resolve keeps of an answer. */
  function Store(s: State, name: Bytes, qtype: uint16, m: Message, now: int): State {
    var key := CacheKey(name, qtype);
    if m.header.rcode == RCODE_NAME_ERROR then
      SetNegative(s, key, m.header.rcode, TTLFromSOA(m), SOAName(m.authorities), now)
    else if m.header.rcode == RCODE_NO_ERROR then
      if ShouldCacheAsNODATA(m, name, qtype) then
        SetNegative(s, key, RCODE_NO_ERROR, TTLFromSOA(m), SOAName(m.authorities), now)
      else if m.answers != [] then Set(s, key, Some(m), MinTTL(m), now)
      else s
    else s
  }

  /** Resolve; None for its error. */
  function Resolve(s: State, blocked: bool, env: Env, qname: Bytes, qtype: uint16, clock: Clock): (State, Option<Resolved>) {
    var name := Normalize(qname);
    var key := CacheKey(name, qtype);
    if blocked then (s, Some(Resolved(NegativeMessage(name, qtype, RCODE_NAME_ERROR), false, false, false, true, 0)))
    else
      var (s1, negative) := GetNegative(s, key, clock.first);
      if negative.Some? then
        (s1, Some(Resolved(NegativeMessage(name, qtype, negative.value.rcode), true, false, false, false, 0)))
      else
        var (s2, hit) := Get(s1, key, clock.second);
        if hit.message.Some? then (s2, Some(Resolved(hit.message.value, true, hit.stale, false, false, 0)))
        else
          var (outcome, walk) := Finished(env, name, qtype);
          match outcome
          case Answered(m) => (Store(s2, name, qtype, m, clock.third), Some(Resolved(m, false, false, false, false, |walk.sent|)))
          case Failure(_) =>
            var (s3, last) := GetStaleOnError(s2, key, clock.third);
            (s3, if last.Some? then Some(Resolved(last.value, true, true, true, false, |walk.sent|)) else None)
  }

  // ---- what is stored ----

  /** The answers that are kept. */
  predicate Storable(m: Message, name: Bytes, qtype: uint16) {
    || m.header.rcode == RCODE_NAME_ERROR
    || ShouldCacheAsNODATA(m, name, qtype)
    || (m.header.rcode == RCODE_NO_ERROR && m.answers != [])
  }

  lemma NothingStored(s: State, name: Bytes, qtype: uint16, m: Message, now: int)
    requires !Storable(m, name, qtype)
    ensures Store(s, name, qtype, m, now) == s
  {
    hide HasAnswer, TTLFromSOA, Normalize;
  }

  /** The entries of `t` were in `s`; all that is gone is an entry for `key` that a lookup found past every use. */
  ghost predicate EntriesKept(s: State, t: State, key: Bytes, now: int) {
    && (forall k :: Resident(t.list, k) ==>
          Resident(s.list, k) && SameOrigin(s.list[Find(s.list, k)], t.list[Find(t.list, k)]))
    && (forall k :: Resident(s.list, k) && !Resident(t.list, k) ==>
          k == key && var e := s.list[Find(s.list, k)];
          now >= e.expiresAt && now >= e.staleUntil && !Servable(s.cfg, e, now))
  }

  /** The same for negative entries. */
  ghost predicate NegativesKept(s: State, t: State, key: Bytes, now: int) {
    && (forall k :: k in t.negative ==> k in s.negative && t.negative[k] == s.negative[k])
    && (forall k :: k in s.negative && k !in t.negative ==> k == key && now > s.negative[k].expiresAt)
  }

  /** All that is gone is what the two lookups for `key` found expired. */
  ghost predicate OnlyExpiredGone(s: State, t: State, key: Bytes, clock: Clock) {
    t.cfg == s.cfg && EntriesKept(s, t, key, clock.second) && NegativesKept(s, t, key, clock.first)
  }

  /** An answer with another code, or without records or SOA, adds nothing to the cache and takes nothing from it. */
  lemma OthersNotStored(s: State, env: Env, qname: Bytes, qtype: uint16, clock: Clock, m: Message)
    requires Inv(s) && !Storable(m, Normalize(qname), qtype)
    requires var r := Resolve(s, false, env, qname, qtype, clock).1; r.Some? && !r.value.cached && r.value.message == m
    ensures OnlyExpiredGone(s, Resolve(s, false, env, qname, qtype, clock).0, CacheKey(Normalize(qname), qtype), clock)
  {
    hide CacheKey, Clone, NegativeMessage, Finished, Store, Storable, Normalize, GetStaleOnError, Get, GetNegative, OnlyExpiredGone;
    var key := CacheKey(Normalize(qname), qtype);
    var s1 := GetNegative(s, key, clock.first).0;
    var s2 := Get(s1, key, clock.second).0;
    NothingStored(s2, Normalize(qname), qtype, m, clock.third);
    LookupsTakeLittle(s, key, clock);
  }

  lemma LookupsTakeLittle(s: State, key: Bytes, clock: Clock)
    requires Inv(s)
    ensures OnlyExpiredGone(s, Get(GetNegative(s, key, clock.first).0, key, clock.second).0, key, clock)
  {
    hide Clone, Get, SizeSum, EntriesKept;
    var s1 := GetNegative(s, key, clock.first).0;
    GetLeavesNegative(s1, key, clock.second);
    GetLeavesConfig(s1, key, clock.second);
    GetEntriesKept(s1, key, clock.second);
    SameEntriesKept(s, s1, Get(s1, key, clock.second).0, key, clock.second);
  }

  lemma SameEntriesKept(s: State, s1: State, t: State, key: Bytes, now: int)
    requires EntriesKept(s1, t, key, now) && s1.list == s.list && s1.cfg == s.cfg
    ensures EntriesKept(s, t, key, now)
  {
    hide Servable, Find;
  }

  lemma GetEntriesKept(s: State, key: Bytes, now: int)
    requires Inv(s)
    ensures EntriesKept(s, Get(s, key, now).0, key, now)
  {
    hide Get, Servable, SameOrigin, Inv;
    var t := Get(s, key, now).0;
    forall k
      ensures Resident(t.list, k) ==> Resident(s.list, k) && SameOrigin(s.list[Find(s.list, k)], t.list[Find(t.list, k)])
      ensures Resident(s.list, k) && !Resident(t.list, k) ==> Leaves(s, OpGet(key, now), k)
    {
      GetSameEntry(s, key, now, k);
    }
  }

  /** What a Get leaves was there before, but for its marks. */
  lemma GetSameEntry(s: State, key: Bytes, now: int, k: Bytes)
    requires Inv(s)
    ensures var t := Get(s, key, now).0;
            Resident(t.list, k) ==> Resident(s.list, k) && SameOrigin(s.list[Find(s.list, k)], t.list[Find(t.list, k)])
    ensures Resident(s.list, k) && !Resident(Get(s, key, now).0.list, k) ==> Leaves(s, OpGet(key, now), k)
  {
    hide Get, Leaves, SizeSum;
    var op, t := OpGet(key, now), Get(s, key, now).0;
    LeavesExactly(s, op, k);
    var from, front := StepKeeps(s, op);
    if Resident(t.list, k) {
      var p := Find(t.list, k);
      assert SameOrigin(s.list[from[p]], t.list[p]);
      assert Find(s.list, k) == from[p];
    }
  }

  /** The lifetime of an answer before it is clamped: that of the SOA for a negative one, else the least TTL. */
  function StoredTTL(m: Message, name: Bytes, qtype: uint16): int {
    if IsNegative(m, name, qtype) then TTLFromSOA(m) else MinTTL(m)
  }

  predicate IsNegative(m: Message, name: Bytes, qtype: uint16) {
    m.header.rcode == RCODE_NAME_ERROR || ShouldCacheAsNODATA(m, name, qtype)
  }

  /** The cache will give `m` for the key until `expiry`: from the list, or as a negative answer. */
  ghost predicate Holds(s: State, name: Bytes, qtype: uint16, m: Message, expiry: int) {
    var key := CacheKey(name, qtype);
    if IsNegative(m, name, qtype) then
      key in s.negative && s.negative[key].rcode == m.header.rcode && s.negative[key].expiresAt == expiry
    else
      && key !in s.negative && Resident(s.list, key)
      && s.list[Find(s.list, key)].value == Clone(m) && s.list[Find(s.list, key)].expiresAt == expiry
  }

  lemma StoreHolds(s: State, name: Bytes, qtype: uint16, m: Message, now: int)
    requires Inv(s) && Storable(m, name, qtype) && CacheKey(name, qtype) !in s.negative
    ensures var t := Store(s, name, qtype, m, now);
            && Inv(t) && t.cfg == s.cfg
            && (forall life :: Clamped(s.cfg, StoredTTL(m, name, qtype), life) ==> Holds(t, name, qtype, m, now + life))
            && (!IsNegative(m, name, qtype) ==> t.list != [] && Find(t.list, CacheKey(name, qtype)) == 0)
  {
    hide CacheKey, Clone, MessageSize, MinTTL, TTLFromSOA, HasAnswer, SOAName, SizeSum;
    CacheKeyInjective(name, qtype, name, qtype);
    ClampExactly(s.cfg, StoredTTL(m, name, qtype));
    hide Clamped, ClampTTL;
    var key := CacheKey(name, qtype);
    if !IsNegative(m, name, qtype) {
      var _ := SetKeeps(s, key, m, MinTTL(m), now);
      SetLeavesNegative(s, key, m, MinTTL(m), now);
      SparesConfig(s, OpSet(key, Some(m), MinTTL(m), now), [], now);
      assert Find(Set(s, key, Some(m), MinTTL(m), now).list, key) == 0;
    }
  }

  lemma SetLeavesNegative(s: State, key: Bytes, m: Message, ttl: int, now: int)
    ensures Set(s, key, Some(m), ttl, now).negative == s.negative
  {
    hide Clone, MessageSize;
  }

  // ---- asking again ----

  /** Operations that neither replace nor remove what is held for `key`: lookups, and stores and removals of other keys. */
  predicate Quiet(op: Op, key: Bytes, until: int) {
    && Spares(op, key, until)
    && (op.OpSetNegative? ==> op.key != key)
    && (op.OpGetNegative? ==> op.now <= until)
  }

  /** What a quiet operation leaves of the negative entry for the key: all of it. */
  lemma QuietNegative(s: State, op: Op, key: Bytes, until: int)
    requires Quiet(op, key, until) && (key in s.negative ==> until < s.negative[key].expiresAt)
    ensures var t := Step(s, op);
            && (key in t.negative <==> key in s.negative)
            && (key in s.negative ==> t.negative[key] == s.negative[key])
  {
    hide Clone, MessageSize, Get, Set;
    match op
    case OpSet(k, value, ttl, now) =>
      if IsSet(op, k) {
        SetLeavesNegative(s, k, value.value, ttl, now);
      } else {
        VoidSet(s, op);
      }
    case OpGet(k, now) => GetLeavesNegative(s, k, now);
    case _ =>
  }

  lemma {:induction false} QuietRun(s: State, ops: seq<Op>, key: Bytes, until: int)
    requires forall i :: 0 <= i < |ops| ==> Quiet(ops[i], key, until)
    requires Inv(s) && (key in s.negative ==> until < s.negative[key].expiresAt)
    ensures var t := CacheRuns.Run(s, ops);
            && Inv(t)
            && (key in t.negative <==> key in s.negative)
            && (key in s.negative ==> t.negative[key] == s.negative[key])
  {
    hide Step, Quiet, Inv;
    if ops != [] {
      var n := |ops| - 1;
      QuietRun(s, ops[..n], key, until);
      QuietNegative(CacheRuns.Run(s, ops[..n]), ops[n], key, until);
      var _, _ := StepKeeps(CacheRuns.Run(s, ops[..n]), ops[n]);
    }
  }

  /** What is held just after it has been stored is held through quiet operations that touch fewer than maxEntries other keys. */
  lemma QuietHolds(s: State, ops: seq<Op>, name: Bytes, qtype: uint16, m: Message, expiry: int, until: int)
    requires Inv(s) && Holds(s, name, qtype, m, expiry) && until < expiry
    requires forall i :: 0 <= i < |ops| ==> Quiet(ops[i], CacheKey(name, qtype), until)
    requires !IsNegative(m, name, qtype) ==>
               Find(s.list, CacheKey(name, qtype)) == 0 && |AllOthers(ops, CacheKey(name, qtype))| < s.cfg.maxEntries
    ensures Inv(CacheRuns.Run(s, ops)) && Holds(CacheRuns.Run(s, ops), name, qtype, m, expiry)
  {
    hide CacheKey, Clone, IsNegative, CacheRuns.Run, Inv, Spares;
    var key := CacheKey(name, qtype);
    QuietRun(s, ops, key, until);
    if !IsNegative(m, name, qtype) {
      RecentStays(s, ops, key, until);
    }
  }

  lemma GetLeavesNegative(s: State, k: Bytes, now: int)
    ensures Get(s, k, now).0.negative == s.negative
  {
    hide Clone;
  }

  /** What is held is served, without a query, whatever the network would say. */
  lemma HeldIsServed(s: State, name: Bytes, qname: Bytes, qtype: uint16, m: Message, expiry: int, env: Env, clock: Clock)
    requires Inv(s) && Holds(s, name, qtype, m, expiry) && Normalize(qname) == name && Normalize(name) == name
    requires clock.first < expiry && clock.second < expiry
    ensures var r := Resolve(s, false, env, qname, qtype, clock).1;
            && r.Some? && r.value.queries == 0 && r.value.cached && !r.value.stale && !r.value.blocked
            && (if IsNegative(m, name, qtype) then SaysNo(r.value.message, name, qtype, m.header.rcode)
                else CopyOf(m, r.value.message))
  {
    CloneFaithful(m);
    NegativeSaysNo(name, qtype, m.header.rcode);
    hide CopyOf, SaysNo;
    hide CacheKey, Clone, SizeSum, ShouldCacheAsNODATA, NegativeMessage, Finished, Store, Get, Inv, Normalize, GetStaleOnError;
    var key := CacheKey(name, qtype);
    var s1 := GetNegative(s, key, clock.first).0;
    GetAnswer(s1, key, clock.second);
  }

  /**
   An answer just resolved over the network is not asked for again. Until its lifetime is over,
   and through any operations in between that do not concern its key (or only look it up) and
   touch fewer than maxEntries other keys, the same question, however its name is written, is
   answered from the cache with a faithful copy of what was stored, and no query is sent.
   */
  lemma ServedLocally(s: State, env: Env, qname: Bytes, qtype: uint16, clock: Clock, ops: seq<Op>,
                      again: Bytes, env2: Env, clock2: Clock, m: Message, life: int)
    requires Inv(s)
    requires var r := Resolve(s, false, env, qname, qtype, clock).1; r.Some? && !r.value.cached && r.value.message == m
    requires Storable(m, Normalize(qname), qtype) && Normalize(again) == Normalize(qname)
    requires Clamped(s.cfg, StoredTTL(m, Normalize(qname), qtype), life)
    requires clock2.first <= clock2.second < clock.third + life
    requires forall i :: 0 <= i < |ops| ==> Quiet(ops[i], CacheKey(Normalize(qname), qtype), clock2.second)
    requires IsNegative(m, Normalize(qname), qtype) || |AllOthers(ops, CacheKey(Normalize(qname), qtype))| < s.cfg.maxEntries
    ensures var t := CacheRuns.Run(Resolve(s, false, env, qname, qtype, clock).0, ops);
            var r := Resolve(t, false, env2, again, qtype, clock2).1;
            var name := Normalize(qname);
            && r.Some? && r.value.queries == 0 && r.value.cached && !r.value.stale && !r.value.blocked
            && (if IsNegative(m, name, qtype) then SaysNo(r.value.message, name, qtype, m.header.rcode)
                else CopyOf(m, r.value.message))
  {
    hide CacheKey, Clone, Storable, IsNegative, StoredTTL, Clamped, SaysNo, NegativeMessage, Finished, Store, Get, GetNegative, GetStaleOnError,
      Inv, Normalize, Holds, Quiet, AllOthers, CopyOf, CacheRuns.Run;
    var name := Normalize(qname);
    var s2 := Missed(s, env, qname, qtype, clock, m);
    var expiry := clock.third + life;
    StoreHolds(s2, name, qtype, m, clock.third);
    NormalizeTwice(qname);
    var t0 := Resolve(s, false, env, qname, qtype, clock).0;
    QuietHolds(t0, ops, name, qtype, m, expiry, clock2.second);
    HeldIsServed(CacheRuns.Run(t0, ops), name, again, qtype, m, expiry, env2, clock2);
  }

  /** The state in which a Resolve that went to the network stores its answer. */
  lemma Missed(s: State, env: Env, qname: Bytes, qtype: uint16, clock: Clock, m: Message) returns (s2: State)
    requires Inv(s)
    requires var r := Resolve(s, false, env, qname, qtype, clock).1; r.Some? && !r.value.cached && r.value.message == m
    ensures Inv(s2) && s2.cfg == s.cfg && CacheKey(Normalize(qname), qtype) !in s2.negative
    ensures Resolve(s, false, env, qname, qtype, clock).0 == Store(s2, Normalize(qname), qtype, m, clock.third)
  {
    hide CacheKey, Clone, NegativeMessage, Finished, Store, Normalize, GetStaleOnError, Get, SizeSum;
    var key := CacheKey(Normalize(qname), qtype);
    var s1 := GetNegative(s, key, clock.first).0;
    s2 := Get(s1, key, clock.second).0;
    var _, _ := GetKeeps(s1, key, clock.second);
    GetLeavesNegative(s1, key, clock.second);
    GetLeavesConfig(s1, key, clock.second);
  }

  lemma GetLeavesConfig(s: State, key: Bytes, now: int)
    ensures Get(s, key, now).0.cfg == s.cfg
  {
    hide Clone;
  }

  // ---- when resolution fails ----

  /**
   After any run, when neither cache answers and resolution fails: the last good answer is served,
   marked stale, exactly when one was Set under the key at most staleMaxAge ago and its entry is
   still there; otherwise Resolve fails.
   */
  lemma FailureServed(o: CacheSpec.Config, prefetch: bool, ops: seq<Op>, env: Env, qname: Bytes, qtype: uint16, clock: Clock)
    requires var key := CacheKey(Normalize(qname), qtype);
             var s := CacheRuns.Run(NewState(o, prefetch), ops);
             && GetNegative(s, key, clock.first).1.None?
             && !Get(GetNegative(s, key, clock.first).0, key, clock.second).1.hit
             && Finished(env, Normalize(qname), qtype).0.Failure?
    ensures var key := CacheKey(Normalize(qname), qtype);
            var s := CacheRuns.Run(NewState(o, prefetch), ops);
            var s2 := Get(GetNegative(s, key, clock.first).0, key, clock.second).0;
            var r := Resolve(s, false, env, qname, qtype, clock).1;
            && (Resident(s2.list, key) ==> LastSet(ops, key).Some?)
            && (r.Some? <==> Resident(s2.list, key) && var stored := ops[LastSet(ops, key).value].now;
                             stored != 0 && clock.third - stored <= s2.cfg.staleMaxAge)
            && (r.Some? ==>
                  && r.value.stale && r.value.staleOnError && r.value.cached && !r.value.blocked
                  && r.value.queries == |Finished(env, Normalize(qname), qtype).1.sent|
                  && CopyOf(ops[LastSet(ops, key).value].value.value, r.value.message))
  {
    hide CacheRuns.Run, Get, GetNegative, GetStaleOnError, CacheKey, Normalize, Finished, CopyOf, Store, NegativeMessage;
    var key := CacheKey(Normalize(qname), qtype);
    var s := CacheRuns.Run(NewState(o, prefetch), ops);
    var s2 := Get(GetNegative(s, key, clock.first).0, key, clock.second).0;
    var later := ops + [OpGetNegative(key, clock.first), OpGet(key, clock.second)];
    LookupsAsRun(NewState(o, prefetch), ops, key, clock);
    LookupsSetNothing(ops, key, clock);
    StaleMeans(o, prefetch, later, key, clock.third);
    MissGives(GetNegative(s, key, clock.first).0, key, clock.second);
  }

  lemma MissGives(s: State, key: Bytes, now: int)
    ensures Get(s, key, now).1.hit <==> Get(s, key, now).1.message.Some?
  {
    hide Clone;
  }

  lemma LookupsAsRun(s0: State, ops: seq<Op>, key: Bytes, clock: Clock)
    ensures CacheRuns.Run(s0, ops + [OpGetNegative(key, clock.first), OpGet(key, clock.second)])
            == Get(GetNegative(CacheRuns.Run(s0, ops), key, clock.first).0, key, clock.second).0
  {
    hide Get, GetNegative;
    var a, b := OpGetNegative(key, clock.first), OpGet(key, clock.second);
    var all := ops + [a, b];
    assert all[..|all| - 1] == ops + [a];
    assert (ops + [a])[..|ops|] == ops;
  }

  lemma LookupsSetNothing(ops: seq<Op>, key: Bytes, clock: Clock)
    ensures var later := ops + [OpGetNegative(key, clock.first), OpGet(key, clock.second)];
            LastSet(later, key) == LastSet(ops, key) && forall k :: 0 <= k < |ops| ==> later[k] == ops[k]
  {
    var a, b := OpGetNegative(key, clock.first), OpGet(key, clock.second);
    var all := ops + [a, b];
    assert all[..|all| - 1] == ops + [a];
    assert (ops + [a])[..|ops|] == ops;
  }
}
