/**
 What holds after every run of cache operations from an empty cache: the recency order, the
 origin and lifetime of every resident entry, and the hit and miss counts.
 */
module CacheRuns {
  import opened Octets
  import opened Records
  import opened CacheSpec

  datatype Op =
    | OpSet(key: Bytes, value: Option<Message>, ttl: int, now: int)
    | OpGet(key: Bytes, now: int)
    | OpStaleOnError(key: Bytes, now: int)
    | OpDelete(key: Bytes)
    | OpFlush
    | OpConfigure(update: ConfigUpdate)
    | OpSetNegative(key: Bytes, rcode: byte, ttl: int, soa: Bytes, now: int)
    | OpGetNegative(key: Bytes, now: int)
    | OpPrefetchDone(key: Bytes)

  function Step(s: State, op: Op): State {
    match op
    case OpSet(key, value, ttl, now) => Set(s, key, value, ttl, now)
    case OpGet(key, now) => Get(s, key, now).0
    case OpStaleOnError(key, now) => GetStaleOnError(s, key, now).0
    case OpDelete(key) => Delete(s, key)
    case OpFlush => Flush(s)
    case OpConfigure(update) => ApplyConfig(s, update)
    case OpSetNegative(key, rcode, ttl, soa, now) => SetNegative(s, key, rcode, ttl, soa, now)
    case OpGetNegative(key, now) => GetNegative(s, key, now).0
    case OpPrefetchDone(key) => PrefetchDone(s, key)
  }

  function Run(s: State, ops: seq<Op>): State {
    if ops == [] then s else Step(Run(s, ops[..|ops| - 1]), ops[|ops| - 1])
  }

  // ---- what one operation does ----

  /** A Set that stores something. */
  predicate IsSet(op: Op, key: Bytes) {
    op.OpSet? && op.key == key && op.value.Some? && key != []
  }

  /** The operations that make `key` the most recent one. */
  predicate IsTouch(op: Op, key: Bytes) {
    IsSet(op, key) || (op.OpGet? && op.key == key)
  }

  /** The same entry up to its counters and marks. */
  predicate SameOrigin(a: Entry, b: Entry) {
    b == a.(hits := b.hits, refreshing := b.refreshing, expired := b.expired)
  }

  /**
   How a list evolves: the entry at j is the old entry at from[j], and old entries keep their
   order. With `front` the first entry is the one the operation touched; nothing else is.
   */
  ghost predicate Evolves(before: seq<Entry>, op: Op, after: seq<Entry>, from: seq<int>, front: bool) {
    && |from| == |after|
    && (forall j :: 0 <= j < |after| && !IsSet(op, after[j].key) ==>
          0 <= from[j] < |before| && SameOrigin(before[from[j]], after[j]))
    && (forall j :: (if front then 1 else 0) <= j < |after| ==> !IsTouch(op, after[j].key))
    && (forall i, j :: (if front then 1 else 0) <= i < j < |after| ==> from[i] < from[j])
    && (front ==> after != [] && IsTouch(op, after[0].key))
  }

  lemma EvolvesPrefix(list: seq<Entry>, op: Op, n: nat) returns (from: seq<int>)
    requires n <= |list| && !op.OpSet? && !op.OpGet?
    ensures Evolves(list, op, list[..n], from, false)
  {
    from := seq(n, j => j);
  }

  lemma EvolvesRemove(list: seq<Entry>, op: Op, i: nat) returns (from: seq<int>)
    requires i < |list| && DistinctKeys(list)
    requires forall k :: IsTouch(op, k) ==> k == list[i].key
    ensures Evolves(list, op, RemoveAt(list, i), from, false)
  {
    from := seq(|list| - 1, j => if j < i then j else j + 1);
  }

  lemma EvolvesFront(list: seq<Entry>, op: Op, i: nat, e: Entry) returns (from: seq<int>)
    requires i < |list| && DistinctKeys(list)
    requires forall k :: IsTouch(op, k) <==> k == list[i].key
    requires e.key == list[i].key && (!IsSet(op, e.key) ==> SameOrigin(list[i], e))
    ensures Evolves(list, op, ToFront(list, i, e), from, true)
  {
    from := seq(|list|, j => if j == 0 then i else if j - 1 < i then j - 1 else j);
  }

  lemma EvolvesInsert(list: seq<Entry>, op: Op, e: Entry, n: nat) returns (from: seq<int>)
    requires 1 <= n <= |list| + 1 && !Resident(list, e.key)
    requires IsSet(op, e.key)
    ensures Evolves(list, op, ([e] + list)[..n], from, true)
  {
    from := seq(n, j => j - 1);
  }

  /** An operation that leaves the list, its limit and its byte count alone. */
  lemma ListUntouched(s: State, op: Op) returns (from: seq<int>)
    requires Step(s, op).list == s.list && forall k :: !IsTouch(op, k)
    ensures Evolves(s.list, op, Step(s, op).list, from, false)
  {
    hide Step;
    from := seq(|s.list|, j => j);
  }

  /** The invariant holds after every operation, which changes the list only as `Evolves` says. */
  lemma StepKeeps(s: State, op: Op) returns (from: seq<int>, front: bool)
    requires Inv(s)
    ensures Inv(Step(s, op))
    ensures Evolves(s.list, op, Step(s, op).list, from, front)
    ensures front && op.OpSet? ==>
              Step(s, op).list != [] && Step(s, op).list[0] == NewEntry(s.cfg, op.key, op.value.value, op.ttl, op.now)
  {
    hide Inv, Evolves, Set, Get, GetStaleOnError, Delete, ApplyConfig, PrefetchDone, NewEntry;
    front := false;
    match op
    case OpSet(key, value, ttl, now) =>
      if value.Some? && key != [] {
        from := SetKeeps(s, key, value.value, ttl, now);
        front := true;
      } else {
        VoidSet(s, op);
        from := ListUntouched(s, op);
      }
    case OpGet(key, now) => from, front := GetKeeps(s, key, now);
    case OpStaleOnError(key, now) => from := StaleKeeps(s, key, now);
    case OpDelete(key) => from := DeleteKeeps(s, key);
    case OpConfigure(u) => from := ConfigureKeeps(s, u);
    case OpPrefetchDone(key) => from := PrefetchDoneKeeps(s, key);
    case _ => from := OtherKeeps(s, op);
  }

  lemma VoidSet(s: State, op: Op)
    requires op.OpSet? && (op.value.None? || op.key == [])
    ensures Step(s, op) == s && forall k :: !IsTouch(op, k)
  {
  }

  lemma OtherKeeps(s: State, op: Op) returns (from: seq<int>)
    requires Inv(s) && (op.OpFlush? || op.OpSetNegative? || op.OpGetNegative?)
    ensures Inv(Step(s, op))
    ensures Evolves(s.list, op, Step(s, op).list, from, false)
  {
    hide SizeSum, DistinctKeys, Evolves;
    if op.OpFlush? {
      from := FlushKeeps(s);
    } else {
      from := ListUntouched(s, op);
    }
  }

  lemma FlushKeeps(s: State) returns (from: seq<int>)
    requires Inv(s)
    ensures Inv(Flush(s)) && Evolves(s.list, OpFlush, Flush(s).list, from, false)
  {
    from := [];
  }

  lemma StaleKeeps(s: State, key: Bytes, now: int) returns (from: seq<int>)
    requires Inv(s)
    ensures var op := OpStaleOnError(key, now);
            Inv(Step(s, op)) && Evolves(s.list, op, Step(s, op).list, from, false)
  {
    hide Clone, Evolves;
    var op, i := OpStaleOnError(key, now), Find(s.list, key);
    if Step(s, op) == s {
      from := ListUntouched(s, op);
    } else {
      RemoveInv(s, i);
      from := EvolvesRemove(s.list, op, i);
    }
  }

  lemma DeleteKeeps(s: State, key: Bytes) returns (from: seq<int>)
    requires Inv(s)
    ensures var op := OpDelete(key);
            Inv(Step(s, op)) && Evolves(s.list, op, Step(s, op).list, from, false)
  {
    hide Evolves;
    var op, i := OpDelete(key), Find(s.list, key);
    if i < |s.list| {
      RemoveInv(s, i);
      from := EvolvesRemove(s.list, op, i);
    } else {
      from := ListUntouched(s, op);
    }
  }

  lemma SetKeeps(s: State, key: Bytes, value: Message, ttl: int, now: int) returns (from: seq<int>)
    requires Inv(s) && key != []
    ensures Inv(Set(s, key, Some(value), ttl, now))
    ensures Evolves(s.list, OpSet(key, Some(value), ttl, now), Set(s, key, Some(value), ttl, now).list, from, true)
    ensures Set(s, key, Some(value), ttl, now).list != []
    ensures Set(s, key, Some(value), ttl, now).list[0] == NewEntry(s.cfg, key, value, ttl, now)
  {
    hide Clone, MessageSize, Evolves, SizeSum;
    var op := OpSet(key, Some(value), ttl, now);
    var item := NewEntry(s.cfg, key, value, ttl, now);
    var i := Find(s.list, key);
    if i < |s.list| {
      SizeSumFront(s.list, i, item);
      SizeSumRemove(s.list, i);
      DistinctFront(s.list, i, item);
      from := EvolvesFront(s.list, op, i, item);
    } else {
      from := InsertKeeps(s, op, item);
    }
  }

  /** A new key goes in front; when the list is full exactly its last entry goes. */
  lemma InsertKeeps(s: State, op: Op, item: Entry) returns (from: seq<int>)
    requires Inv(s) && op.OpSet? && IsSet(op, item.key) && !Resident(s.list, item.key)
    requires item == NewEntry(s.cfg, op.key, op.value.value, op.ttl, op.now)
    ensures var t := Set(s, op.key, op.value, op.ttl, op.now);
            && Inv(t) && Evolves(s.list, op, t.list, from, true)
            && t.list == ([item] + s.list)[..if |s.list| < s.cfg.maxEntries then |s.list| + 1 else s.cfg.maxEntries]
  {
    hide NewEntry, Evolves;
    var longer := [item] + s.list;
    assert longer[1..] == s.list;
    assert DistinctKeys(longer);
    var t := s.(list := longer, stats := s.stats.(memoryBytes := s.stats.memoryBytes + item.size));
    if |longer| > s.cfg.maxEntries {
      EvictOne(t);
      from := EvolvesInsert(s.list, op, item, |s.list|);
    } else {
      from := EvolvesInsert(s.list, op, item, |longer|);
      assert longer[..|longer|] == longer;
    }
  }

  lemma GetKeeps(s: State, key: Bytes, now: int) returns (from: seq<int>, front: bool)
    requires Inv(s)
    ensures Inv(Get(s, key, now).0)
    ensures Evolves(s.list, OpGet(key, now), Get(s, key, now).0.list, from, front)
  {
    hide Clone, SizeSum;
    var op := OpGet(key, now);
    var i := Find(s.list, key);
    front := false;
    if i == |s.list| {
      from := seq(|s.list|, j => j);
    } else if now >= s.list[i].expiresAt && now >= s.list[i].staleUntil && !Servable(s.cfg, s.list[i], now) {
      GetRemoves(s, key, now);
      SizeSumRemove(s.list, i);
      DistinctFront(s.list, i, s.list[i]);
      from := EvolvesRemove(s.list, op, i);
    } else {
      var e := GetMoves(s, key, now);
      SizeSumFront(s.list, i, e);
      DistinctFront(s.list, i, e);
      from := EvolvesFront(s.list, op, i, e);
      front := true;
    }
  }

  /** Any other Get that finds an entry moves it to the front. */
  lemma GetMoves(s: State, key: Bytes, now: int) returns (e: Entry)
    requires Resident(s.list, key)
    requires var e := s.list[Find(s.list, key)]; now < e.expiresAt || now < e.staleUntil || Servable(s.cfg, e, now)
    ensures var i, t := Find(s.list, key), Get(s, key, now).0;
            && t.list == ToFront(s.list, i, e) && SameOrigin(s.list[i], e)
            && t.cfg == s.cfg && t.stats.memoryBytes == s.stats.memoryBytes
            && t.stats.staleHits - t.stats.hits <= s.stats.staleHits - s.stats.hits
  {
    hide Clone;
    e := Get(s, key, now).0.list[0];
  }

  /** A Get that finds neither a fresh, a stale nor a still servable entry removes it. */
  lemma GetRemoves(s: State, key: Bytes, now: int)
    requires Inv(s) && Resident(s.list, key)
    requires var e := s.list[Find(s.list, key)]; now >= e.expiresAt && now >= e.staleUntil && !Servable(s.cfg, e, now)
    ensures var i := Find(s.list, key);
            && Get(s, key, now).0.list == RemoveAt(s.list, i)
            && Get(s, key, now).0.stats.memoryBytes == s.stats.memoryBytes - s.list[i].size
  {
    hide Clone;
    var i := Find(s.list, key);
    SizeSumRemove(s.list, i);
    var e := s.list[i].(hits := s.list[i].hits + 1, expired := true);
    assert RemoveAt(ToFront(s.list, i, e), 0) == RemoveAt(s.list, i);
  }

  lemma ConfigureKeeps(s: State, u: ConfigUpdate) returns (from: seq<int>)
    requires Inv(s)
    ensures Inv(ApplyConfig(s, u))
    ensures Evolves(s.list, OpConfigure(u), ApplyConfig(s, u).list, from, false)
  {
    var t := s;
    if u.maxEntries.Some? && u.maxEntries.value > 0 {
      t := s.(cfg := s.cfg.(maxEntries := u.maxEntries.value));
    }
    ShrinkDropsTail(t);
    from := EvolvesPrefix(s.list, OpConfigure(u), |Shrink(t).list|);
    assert ApplyConfig(s, u).list == Shrink(t).list;
  }

  lemma PrefetchDoneKeeps(s: State, key: Bytes) returns (from: seq<int>)
    requires Inv(s)
    ensures Inv(PrefetchDone(s, key))
    ensures Evolves(s.list, OpPrefetchDone(key), PrefetchDone(s, key).list, from, false)
  {
    hide SizeSum, Evolves;
    var i := Find(s.list, key);
    if i < |s.list| {
      SizeSumUpdate(s.list, i, s.list[i].(refreshing := false));
      from := EvolvesUpdate(s.list, OpPrefetchDone(key), i);
    } else {
      from := ListUntouched(s, OpPrefetchDone(key));
    }
  }

  lemma EvolvesUpdate(list: seq<Entry>, op: Op, i: nat) returns (from: seq<int>)
    requires i < |list| && !op.OpSet? && !op.OpGet?
    ensures Evolves(list, op, list[i := list[i].(refreshing := false)], from, false)
  {
    from := seq(|list|, j => j);
  }

  lemma {:induction false} SizeSumUpdate(list: seq<Entry>, i: nat, e: Entry)
    requires i < |list| && e.size == list[i].size
    ensures SizeSum(list[i := e]) == SizeSum(list)
  {
    var t := list[i := e];
    if i == 0 {
      assert t[1..] == list[1..];
    } else {
      assert t[1..] == list[1..][i - 1 := e];
      SizeSumUpdate(list[1..], i - 1, e);
    }
  }

  // ---- every run ----

  lemma NewInv(o: Config, prefetch: bool)
    ensures Inv(NewState(o, prefetch))
  {
  }

  lemma {:induction false} RunInv(o: Config, prefetch: bool, ops: seq<Op>)
    ensures Inv(Run(NewState(o, prefetch), ops))
  {
    hide Step, Inv;
    NewInv(o, prefetch);
    if ops != [] {
      var n := |ops| - 1;
      RunInv(o, prefetch, ops[..n]);
      var _, _ := StepKeeps(Run(NewState(o, prefetch), ops[..n]), ops[n]);
    }
  }

  /** The index of the last operation that made `key` the most recent, if any. */
  function LastTouch(ops: seq<Op>, key: Bytes): (r: Option<nat>)
    ensures r.Some? ==> r.value < |ops| && IsTouch(ops[r.value], key)
  {
    if ops == [] then None
    else if IsTouch(ops[|ops| - 1], key) then Some(|ops| - 1)
    else LastTouch(ops[..|ops| - 1], key)
  }

  ghost predicate Recent(ops: seq<Op>, list: seq<Entry>) {
    && (forall i :: 0 <= i < |list| ==> LastTouch(ops, list[i].key).Some?)
    && (forall i, j :: 0 <= i < j < |list| ==> LastTouch(ops, list[i].key).value > LastTouch(ops, list[j].key).value)
  }

  /** After every run the list is ordered by latest Set or Get, the most recent first. */
  lemma {:induction false} RecencyOrder(o: Config, prefetch: bool, ops: seq<Op>)
    ensures Recent(ops, Run(NewState(o, prefetch), ops).list)
  {
    hide Step, Inv, IsTouch;
    if ops != [] {
      var n := |ops| - 1;
      var before := ops[..n];
      var s := Run(NewState(o, prefetch), before);
      RecencyOrder(o, prefetch, before);
      RunInv(o, prefetch, before);
      var from, front := StepKeeps(s, ops[n]);
      RecentStep(before, ops[n], s.list, Step(s, ops[n]).list, from, front);
      assert before + [ops[n]] == ops;
    }
  }

  lemma RecentStep(ops: seq<Op>, op: Op, before: seq<Entry>, after: seq<Entry>, from: seq<int>, front: bool)
    requires Recent(ops, before) && Evolves(before, op, after, from, front)
    ensures Recent(ops + [op], after)
  {
    var all := ops + [op];
    assert all[..|ops|] == ops;
    forall j | 0 <= j < |after|
      ensures LastTouch(all, after[j].key) == if front && j == 0 then Some(|ops|) else LastTouch(ops, after[j].key)
      ensures !(front && j == 0) ==> after[j].key == before[from[j]].key
    {
    }
  }

  /** The index of the last operation that stored a value for `key`, if any. */
  function LastSet(ops: seq<Op>, key: Bytes): (r: Option<nat>)
    ensures r.Some? ==> r.value < |ops| && IsSet(ops[r.value], key)
  {
    if ops == [] then None
    else if IsSet(ops[|ops| - 1], key) then Some(|ops| - 1)
    else LastSet(ops[..|ops| - 1], key)
  }

  /** The entry the last Set for `key` made, with the configuration in force at that moment. */
  ghost function SetEntry(s0: State, ops: seq<Op>, k: nat): Entry
    requires k < |ops| && ops[k].OpSet? && IsSet(ops[k], ops[k].key)
  {
    var op := ops[k];
    NewEntry(Run(s0, ops[..k]).cfg, op.key, op.value.value, op.ttl, op.now)
  }

  ghost predicate FromLastSet(s0: State, ops: seq<Op>, e: Entry) {
    LastSet(ops, e.key).Some? && SameOrigin(SetEntry(s0, ops, LastSet(ops, e.key).value), e)
  }

  /** After every run each resident entry is the one its key's last Set made, up to its marks. */
  lemma {:induction false} Provenance(o: Config, prefetch: bool, ops: seq<Op>)
    ensures var s0 := NewState(o, prefetch);
            forall e :: e in Run(s0, ops).list ==> FromLastSet(s0, ops, e)
  {
    hide Step, Inv, NewEntry;
    var s0 := NewState(o, prefetch);
    if ops != [] {
      var n := |ops| - 1;
      var op, s := ops[n], Run(s0, ops[..n]);
      Provenance(o, prefetch, ops[..n]);
      RunInv(o, prefetch, ops[..n]);
      var from, front := StepKeeps(s, op);
      var after := Step(s, op).list;
      forall j | 0 <= j < |after|
        ensures FromLastSet(s0, ops, after[j])
      {
        if IsSet(op, after[j].key) {
          assert front && j == 0;
        } else {
          var was := s.list[from[j]];
          assert was in s.list;
          SetEntryEarlier(s0, ops, LastSet(ops[..n], was.key).value);
        }
      }
    }
  }

  lemma SetEntryEarlier(s0: State, ops: seq<Op>, k: nat)
    requires k < |ops| - 1 && ops[k].OpSet? && IsSet(ops[k], ops[k].key)
    ensures SetEntry(s0, ops[..|ops| - 1], k) == SetEntry(s0, ops, k)
  {
    hide Run, NewEntry;
    assert ops[..|ops| - 1][..k] == ops[..k];
  }

  // ---- lifetimes ----

  /**
   What a lookup gives after any run: a hit exactly when the key is resident and the clamped
   lifetime of its last Set, or the stale window after it, is not over; a stale hit exactly in
   that window; and then a faithful copy of the message last Set.
   */
  lemma HitMeans(o: Config, prefetch: bool, ops: seq<Op>, key: Bytes, now: int)
    ensures var s0 := NewState(o, prefetch);
            var s := Run(s0, ops);
            var r := Get(s, key, now).1;
            && (Resident(s.list, key) ==> LastSet(ops, key).Some?)
            && (!Resident(s.list, key) ==> !r.hit)
            && (Resident(s.list, key) ==>
                  var k := LastSet(ops, key).value;
                  var cfg := Run(s0, ops[..k]).cfg;
                  forall life :: Clamped(cfg, ops[k].ttl, life) ==>
                  var expiry := ops[k].now + life;
                  && (r.hit <==> now < expiry + cfg.staleWindow)
                  && (r.stale <==> expiry <= now < expiry + cfg.staleWindow)
                  && (r.hit ==> r.message.Some? && CopyOf(ops[k].value.value, r.message.value)))
  {
    hide Run, Clone, MessageSize, CopyOf;
    var s0 := NewState(o, prefetch);
    var s := Run(s0, ops);
    GetAnswer(s, key, now);
    if Resident(s.list, key) {
      hide Get;
      var e := s.list[Find(s.list, key)];
      assert e in s.list;
      Provenance(o, prefetch, ops);
      assert FromLastSet(s0, ops, e);
      var k := LastSet(ops, key).value;
      ClampExactly(Run(s0, ops[..k]).cfg, ops[k].ttl);
      hide Clamped, ClampTTL;
      RunInv(o, prefetch, ops[..k]);
      CloneFaithful(ops[k].value.value);
    }
  }

  /** How Get answers, in terms of the entry alone. */
  lemma GetAnswer(s: State, key: Bytes, now: int)
    ensures var r := Get(s, key, now).1;
            if !Resident(s.list, key) then r == MISS
            else
              var e := s.list[Find(s.list, key)];
              if now < e.expiresAt then r == GetResult(Some(Clone(e.value)), true, false)
              else if now < e.staleUntil then r == GetResult(Some(Clone(e.value)), true, true)
              else r == MISS
  {
    hide Clone;
  }

  /** With minTTL <= maxTTL the lifetime is the value between the limits that is nearest to the TTL. */
  lemma ClampBetween(cfg: Config, ttl: int)
    requires cfg.minTTL <= cfg.maxTTL
    ensures cfg.minTTL <= ClampTTL(cfg, ttl) <= cfg.maxTTL
    ensures forall t :: cfg.minTTL <= t <= cfg.maxTTL ==> Distance(ClampTTL(cfg, ttl), ttl) <= Distance(t, ttl)
  {
  }

  function Distance(a: int, b: int): nat {
    if a < b then b - a else a - b
  }

  /** A Get never takes away what GetStaleOnError would still serve at that instant. */
  lemma GetKeepsServable(s: State, key: Bytes, now: int)
    requires Inv(s)
    ensures GetStaleOnError(Get(s, key, now).0, key, now).1 == GetStaleOnError(s, key, now).1
  {
    hide Clone;
    var i := Find(s.list, key);
    var t := Get(s, key, now).0;
    if i < |s.list| {
      if now >= s.list[i].expiresAt && now >= s.list[i].staleUntil && !Servable(s.cfg, s.list[i], now) {
        GetRemoves(s, key, now);
        Gone(s.list, i);
      } else {
        hide Get, SizeSum, Inv, ToFront, RemoveAt;
        var e := GetMoves(s, key, now);
        FoundFirst(s.list, i, e);
      }
    }
  }

  lemma FoundFirst(list: seq<Entry>, i: nat, e: Entry)
    requires i < |list|
    ensures ToFront(list, i, e) != [] && ToFront(list, i, e)[0] == e && Find(ToFront(list, i, e), e.key) == 0
  {
  }

  lemma Gone(list: seq<Entry>, i: nat)
    requires i < |list| && DistinctKeys(list)
    ensures !Resident(RemoveAt(list, i), list[i].key)
  {
  }

  /**
   After any run a key can be served on error exactly when it is resident, was last Set at a
   time that is not the zero time, and that is at most staleMaxAge ago; it then gets the message last Set.
   */
  lemma StaleMeans(o: Config, prefetch: bool, ops: seq<Op>, key: Bytes, now: int)
    ensures var s := Run(NewState(o, prefetch), ops);
            var r := GetStaleOnError(s, key, now).1;
            && (Resident(s.list, key) ==> LastSet(ops, key).Some?)
            && (r.Some? <==> Resident(s.list, key) && var stored := ops[LastSet(ops, key).value].now;
                             stored != ZERO_TIME && now - stored <= s.cfg.staleMaxAge)
            && (r.Some? ==> CopyOf(ops[LastSet(ops, key).value].value.value, r.value))
  {
    hide Run, Clone, MessageSize, CopyOf;
    var s0 := NewState(o, prefetch);
    var s := Run(s0, ops);
    if Resident(s.list, key) {
      var e := s.list[Find(s.list, key)];
      assert e in s.list;
      Provenance(o, prefetch, ops);
      assert FromLastSet(s0, ops, e);
      CloneFaithful(ops[LastSet(ops, key).value].value.value);
    }
  }

  // ---- what leaves ----

  /** The operations that take a resident entry away. */
  predicate Leaves(s: State, op: Op, k: Bytes)
    requires Resident(s.list, k)
  {
    var i := Find(s.list, k);
    var e := s.list[i];
    match op
    case OpSet(key, _, _, _) => IsSet(op, key) && !Resident(s.list, key) && |s.list| == s.cfg.maxEntries && i == |s.list| - 1
    case OpGet(key, now) => key == k && now >= e.expiresAt && now >= e.staleUntil && !Servable(s.cfg, e, now)
    case OpStaleOnError(key, now) =>
      key == k && e.lastGood.Some? && e.lastGoodAt != ZERO_TIME && now - e.lastGoodAt > s.cfg.staleMaxAge
    case OpDelete(key) => key == k
    case OpFlush => true
    case OpConfigure(u) => u.maxEntries.Some? && 0 < u.maxEntries.value <= i
    case _ => false
  }

  /** An entry leaves exactly in these cases, and only Set brings one in. */
  lemma LeavesExactly(s: State, op: Op, k: Bytes)
    requires Inv(s)
    ensures Resident(s.list, k) ==> (Resident(Step(s, op).list, k) <==> !Leaves(s, op, k))
    ensures !Resident(s.list, k) && Resident(Step(s, op).list, k) ==> IsSet(op, k)
  {
    hide Clone, MessageSize, SizeSum;
    match op
    case OpSet(key, value, ttl, now) =>
      hide NewEntry;
      if IsSet(op, key) {
        NewEntryNames(s.cfg, key, value.value, ttl, now);
        SetLeaves(s, op, k);
      }
    case OpGet(key, now) => GetLeaves(s, key, now, k);
    case OpStaleOnError(_, _) => RemovalLeaves(s, op, k);
    case OpDelete(_) => RemovalLeaves(s, op, k);
    case OpConfigure(u) =>
      if u.maxEntries.Some? && u.maxEntries.value > 0 {
        ShrinkDropsTail(s.(cfg := s.cfg.(maxEntries := u.maxEntries.value)));
        hide Shrink;
        PrefixOnly(s.list, |Resize(s, u.maxEntries).list|, k);
      }
    case OpPrefetchDone(key) => SameKeys(s.list, PrefetchDone(s, key).list, k);
    case _ =>
  }

  lemma RemovalLeaves(s: State, op: Op, k: Bytes)
    requires Inv(s) && (op.OpDelete? || op.OpStaleOnError?)
    ensures Resident(s.list, k) ==> (Resident(Step(s, op).list, k) <==> !Leaves(s, op, k))
    ensures Resident(Step(s, op).list, k) ==> Resident(s.list, k)
  {
    hide Clone, SizeSum, RemoveAt;
    if Resident(s.list, op.key) {
      RemovedOnly(s.list, Find(s.list, op.key), k);
    }
  }

  lemma NewEntryNames(cfg: Config, key: Bytes, value: Message, ttl: int, now: int)
    ensures NewEntry(cfg, key, value, ttl, now).key == key
  {
  }

  lemma RemovedOnly(list: seq<Entry>, i: nat, k: Bytes)
    requires DistinctKeys(list) && i < |list|
    ensures Resident(RemoveAt(list, i), k) <==> Resident(list, k) && k != list[i].key
  {
    var t := RemoveAt(list, i);
    if Resident(list, k) && k != list[i].key {
      var j := Find(list, k);
      assert t[if j < i then j else j - 1].key == k;
    }
    if Resident(t, k) {
      var j := Find(t, k);
      assert list[if j < i then j else j + 1].key == k;
    }
  }

  lemma FrontOnly(list: seq<Entry>, i: nat, e: Entry, k: Bytes)
    requires DistinctKeys(list) && i < |list| && e.key == list[i].key
    ensures Resident(ToFront(list, i, e), k) <==> Resident(list, k)
  {
    RemovedOnly(list, i, k);
    assert ToFront(list, i, e)[1..] == RemoveAt(list, i);
    if Resident(list, k) && k == list[i].key {
      assert ToFront(list, i, e)[0].key == k;
    }
  }

  lemma PrefixOnly(list: seq<Entry>, n: nat, k: Bytes)
    requires n <= |list|
    ensures Resident(list[..n], k) <==> Resident(list, k) && Find(list, k) < n
  {
    if Resident(list[..n], k) {
      var j := Find(list[..n], k);
      assert list[j].key == k;
    }
    if Resident(list, k) && Find(list, k) < n {
      assert list[..n][Find(list, k)].key == k;
    }
  }

  lemma SameKeys(a: seq<Entry>, b: seq<Entry>, k: Bytes)
    requires |a| == |b| && forall i :: 0 <= i < |a| ==> a[i].key == b[i].key
    ensures Resident(a, k) <==> Resident(b, k)
  {
    if Resident(a, k) {
      assert b[Find(a, k)].key == k;
    }
    if Resident(b, k) {
      assert a[Find(b, k)].key == k;
    }
  }

  lemma SetLeaves(s: State, op: Op, k: Bytes)
    requires Inv(s) && op.OpSet? && IsSet(op, op.key)
    requires NewEntry(s.cfg, op.key, op.value.value, op.ttl, op.now).key == op.key
    ensures Resident(s.list, k) ==> (Resident(Step(s, op).list, k) <==> !Leaves(s, op, k))
    ensures !Resident(s.list, k) && Resident(Step(s, op).list, k) ==> IsSet(op, k)
  {
    hide NewEntry, SizeSum, Clone, MessageSize, Evolves;
    var item := NewEntry(s.cfg, op.key, op.value.value, op.ttl, op.now);
    if Resident(s.list, op.key) {
      FrontOnly(s.list, Find(s.list, op.key), item, k);
    } else {
      var _ := InsertKeeps(s, op, item);
      var longer := [item] + s.list;
      var n := if |s.list| < s.cfg.maxEntries then |s.list| + 1 else s.cfg.maxEntries;
      assert longer[1..] == s.list;
      hide Set, Inv;
      PrefixOnly(longer, n, k);
    }
  }

  lemma GetLeaves(s: State, key: Bytes, now: int, k: Bytes)
    requires Inv(s)
    ensures Resident(s.list, k) ==> (Resident(Get(s, key, now).0.list, k) <==> !Leaves(s, OpGet(key, now), k))
    ensures Resident(Get(s, key, now).0.list, k) ==> Resident(s.list, k)
  {
    hide Clone, SizeSum;
    if Resident(s.list, key) {
      var i := Find(s.list, key);
      if now >= s.list[i].expiresAt && now >= s.list[i].staleUntil && !Servable(s.cfg, s.list[i], now) {
        GetRemoves(s, key, now);
        hide Get;
        RemovedOnly(s.list, i, k);
      } else {
        var e := GetMoves(s, key, now);
        hide Get;
        FrontOnly(s.list, i, e, k);
      }
    }
  }

  // ---- what stays ----

  /** The key other than `key` that an operation makes the most recent one, if any. */
  function Others(op: Op, key: Bytes): set<Bytes> {
    if ((op.OpSet? && IsSet(op, op.key)) || op.OpGet?) && op.key != key then {op.key} else {}
  }

  /** Everything in front of `key` has been touched. */
  ghost predicate Ahead(list: seq<Entry>, key: Bytes, d: set<Bytes>) {
    Resident(list, key) && forall i :: 0 <= i < Find(list, key) ==> list[i].key in d
  }

  /** Operations that neither replace nor remove the entry for `key`, while it is fresh. */
  predicate Spares(op: Op, key: Bytes, until: int) {
    match op
    case OpSet(k, _, _, _) => k != key
    case OpGet(_, now) => now <= until
    case OpStaleOnError(k, _) => k != key
    case OpDelete(k) => k != key
    case OpFlush => false
    case OpConfigure(_) => false
    case _ => true
  }

  lemma {:induction false} DistinctCount(list: seq<Entry>, n: nat, d: set<Bytes>)
    requires DistinctKeys(list) && n <= |list| && forall i :: 0 <= i < n ==> list[i].key in d
    ensures n <= |d|
  {
    if n > 0 {
      var k := list[n - 1].key;
      DistinctCount(list, n - 1, d - {k});
    }
  }

  /** The entry is not the last of a full list while fewer than maxEntries other keys have been touched. */
  lemma NotTheVictim(s: State, op: Op, key: Bytes, d: set<Bytes>)
    requires Inv(s) && Ahead(s.list, key, d) && |d + Others(op, key)| < s.cfg.maxEntries
    requires op.OpSet? && IsSet(op, op.key) && op.key != key && !Resident(s.list, op.key) && |s.list| == s.cfg.maxEntries
    ensures Find(s.list, key) < |s.list| - 1
  {
    var n := Find(s.list, key);
    assert forall i :: 0 <= i < |s.list| ==> s.list[i].key != op.key;
    DistinctCount(s.list, n, (d + Others(op, key)) - {op.key});
  }

  /** The entry after the operation, and what is in front of it. */
  lemma SameEntryLater(s: State, op: Op, key: Bytes, d: set<Bytes>, t: State, from: seq<int>, front: bool)
    requires DistinctKeys(s.list) && Ahead(s.list, key, d) && Resident(t.list, key) && !IsSet(op, key)
    requires Evolves(s.list, op, t.list, from, front)
    ensures Ahead(t.list, key, d + Others(op, key))
    ensures SameOrigin(s.list[Find(s.list, key)], t.list[Find(t.list, key)])
  {
    var p := Find(t.list, key);
    assert SameOrigin(s.list[from[p]], t.list[p]);
    assert from[p] == Find(s.list, key);
    forall i | 0 <= i < p
      ensures t.list[i].key in d + Others(op, key)
    {
      if !(front && i == 0) {
        assert !IsTouch(op, t.list[i].key);
        assert SameOrigin(s.list[from[i]], t.list[i]);
      }
    }
  }

  /** One operation that spares a fresh entry leaves it in the list, behind touched keys only. */
  lemma StepSpares(s: State, op: Op, key: Bytes, d: set<Bytes>, until: int)
    requires Inv(s) && Ahead(s.list, key, d) && Spares(op, key, until)
    requires until < s.list[Find(s.list, key)].expiresAt && |d + Others(op, key)| < s.cfg.maxEntries
    ensures var t := Step(s, op);
            && Inv(t) && t.cfg == s.cfg && Ahead(t.list, key, d + Others(op, key))
            && SameOrigin(s.list[Find(s.list, key)], t.list[Find(t.list, key)])
  {
    SparesConfig(s, op, key, until);
    hide Step, Inv, Evolves, Servable;
    var from, front := StepKeeps(s, op);
    LeavesExactly(s, op, key);
    if op.OpSet? && IsSet(op, op.key) && !Resident(s.list, op.key) && |s.list| == s.cfg.maxEntries {
      NotTheVictim(s, op, key, d);
    }
    assert !Leaves(s, op, key);
    InvDistinct(s);
    SameEntryLater(s, op, key, d, Step(s, op), from, front);
  }

  lemma InvDistinct(s: State)
    requires Inv(s)
    ensures DistinctKeys(s.list)
  {
  }

  lemma SparesConfig(s: State, op: Op, key: Bytes, until: int)
    requires Spares(op, key, until)
    ensures Step(s, op).cfg == s.cfg
  {
    hide Clone, MessageSize;
  }

  function AllOthers(ops: seq<Op>, key: Bytes): set<Bytes> {
    if ops == [] then {} else AllOthers(ops[..|ops| - 1], key) + Others(ops[|ops| - 1], key)
  }

  /**
   The promise of the recency list: an entry just stored or read stays, its message and lifetime
   unchanged, through any operations that do not replace or remove it, while it is fresh and
   fewer than maxEntries other keys are stored or read.
   */
  lemma {:induction false} RecentStays(s: State, ops: seq<Op>, key: Bytes, until: int)
    requires Inv(s) && Resident(s.list, key) && Find(s.list, key) == 0 && until < s.list[0].expiresAt
    requires forall i :: 0 <= i < |ops| ==> Spares(ops[i], key, until)
    requires |AllOthers(ops, key)| < s.cfg.maxEntries
    ensures var t := Run(s, ops);
            && Inv(t) && t.cfg == s.cfg && Ahead(t.list, key, AllOthers(ops, key))
            && SameOrigin(s.list[0], t.list[Find(t.list, key)])
  {
    hide Step, Inv, Spares, Others;
    if ops != [] {
      var n := |ops| - 1;
      FewerOthers(ops, key);
      RecentStays(s, ops[..n], key, until);
      StepSpares(Run(s, ops[..n]), ops[n], key, AllOthers(ops[..n], key), until);
    }
  }

  lemma FewerOthers(ops: seq<Op>, key: Bytes)
    requires ops != []
    ensures |AllOthers(ops[..|ops| - 1], key)| <= |AllOthers(ops, key)|
  {
    var a, b := AllOthers(ops[..|ops| - 1], key), AllOthers(ops, key);
    assert b == a + (b - a);
  }

  // ---- counting ----

  function Lookups(ops: seq<Op>): nat {
    if ops == [] then 0
    else Lookups(ops[..|ops| - 1]) + (if ops[|ops| - 1].OpGet? || ops[|ops| - 1].OpGetNegative? then 1 else 0)
  }

  lemma StepCounts(s: State, op: Op)
    requires Inv(s)
    ensures Step(s, op).stats.hits + Step(s, op).stats.misses
            == s.stats.hits + s.stats.misses + (if op.OpGet? || op.OpGetNegative? then 1 else 0)
  {
    hide Clone, MessageSize;
    match op
    case OpConfigure(u) =>
      if u.maxEntries.Some? && u.maxEntries.value > 0 {
        ShrinkDropsTail(s.(cfg := s.cfg.(maxEntries := u.maxEntries.value)));
      }
    case _ =>
  }

  /** Every Get and GetNegative is counted once, as a hit or as a miss; stale hits are hits. */
  lemma {:induction false} CountsAddUp(o: Config, prefetch: bool, ops: seq<Op>)
    ensures var st := Run(NewState(o, prefetch), ops).stats;
            st.hits + st.misses == Lookups(ops) && st.staleHits <= st.hits
  {
    hide Step;
    RunInv(o, prefetch, ops);
    if ops != [] {
      var n := |ops| - 1;
      CountsAddUp(o, prefetch, ops[..n]);
      RunInv(o, prefetch, ops[..n]);
      StepCounts(Run(NewState(o, prefetch), ops[..n]), ops[n]);
    }
  }
}
