/**
 What the numbers and marks of the cache mean after every run: the byte count, the hit count of an
 entry, the counters, when a prefetch starts, and which negative answers are held.
 */
module CacheLaws {
  import opened Octets
  import opened Records
  import opened MessageWire
  import opened CacheSpec
  import opened CacheRuns

  // ---- bytes ----

  /** The octets of the key and of the message on the wire, if it encodes. */
  function EntryBytes(e: Entry): nat {
    |e.key| + if Encode(e.value).Ok? then |Encode(e.value).value| else 0
  }

  function ResidentBytes(list: seq<Entry>): nat {
    if list == [] then 0 else EntryBytes(list[0]) + ResidentBytes(list[1..])
  }

  lemma {:induction false} SizesAreBytes(list: seq<Entry>)
    requires forall e :: e in list ==> e.size == EntryBytes(e)
    ensures SizeSum(list) == ResidentBytes(list)
  {
    hide EntryBytes;
    if list != [] {
      assert list[0] in list && forall e :: e in list[1..] ==> e in list;
      SizesAreBytes(list[1..]);
    }
  }

  /** After every run MemoryBytes is the number of octets of all resident keys and messages. */
  lemma MemoryMeans(o: Config, prefetch: bool, ops: seq<Op>)
    ensures var s := Run(NewState(o, prefetch), ops); s.stats.memoryBytes == ResidentBytes(s.list)
  {
    hide Run, Encode, Clone, SizeSum, EntryBytes;
    var s0 := NewState(o, prefetch);
    var s := Run(s0, ops);
    RunInv(o, prefetch, ops);
    Provenance(o, prefetch, ops);
    forall e | e in s.list
      ensures e.size == EntryBytes(e)
    {
      assert FromLastSet(s0, ops, e);
      SetEntryBytes(s0, ops, LastSet(ops, e.key).value, e);
    }
    SizesAreBytes(s.list);
  }

  lemma SetEntryBytes(s0: State, ops: seq<Op>, k: nat, e: Entry)
    requires k < |ops| && ops[k].OpSet? && IsSet(ops[k], ops[k].key) && SameOrigin(SetEntry(s0, ops, k), e)
    ensures e.size == EntryBytes(e)
  {
    hide Run, Clone, Encode;
  }

  // ---- one entry through one operation ----

  /** The entry for a key. */
  function At(list: seq<Entry>, k: Bytes): Entry
    requires Resident(list, k)
  {
    list[Find(list, k)]
  }

  lemma AtIs(list: seq<Entry>, i: nat)
    requires DistinctKeys(list) && i < |list|
    ensures Resident(list, list[i].key) && At(list, list[i].key) == list[i]
  {
  }

  lemma AfterRemove(list: seq<Entry>, i: nat, k: Bytes)
    requires DistinctKeys(list) && i < |list|
    ensures Resident(RemoveAt(list, i), k) ==> Resident(list, k) && At(RemoveAt(list, i), k) == At(list, k)
  {
    var t := RemoveAt(list, i);
    if Resident(t, k) {
      var j := Find(t, k);
      assert t[j] == list[if j < i then j else j + 1];
      AtIs(list, if j < i then j else j + 1);
    }
  }

  lemma AfterFront(list: seq<Entry>, i: nat, e: Entry, k: Bytes)
    requires DistinctKeys(list) && i < |list| && e.key == list[i].key
    ensures Resident(ToFront(list, i, e), k) ==>
              && Resident(list, k)
              && At(ToFront(list, i, e), k) == if k == e.key then e else At(list, k)
    ensures At(list, e.key) == list[i]
  {
    var t := ToFront(list, i, e);
    AtIs(list, i);
    assert t[0] == e && t[1..] == RemoveAt(list, i);
    if Resident(t, k) && k != e.key {
      AfterRemove(list, i, k);
      hide RemoveAt, ToFront;
      assert Find(t, k) == 1 + Find(t[1..], k);
    }
  }

  lemma AfterPrefix(list: seq<Entry>, n: nat, k: Bytes)
    requires DistinctKeys(list) && n <= |list|
    ensures Resident(list[..n], k) ==> Resident(list, k) && At(list[..n], k) == At(list, k)
  {
    if Resident(list[..n], k) {
      AtIs(list, Find(list[..n], k));
    }
  }

  /** The hit count after an operation. */
  function HitsAfter(s: State, op: Op, k: Bytes): int
    requires Resident(s.list, k) || IsSet(op, k)
  {
    if IsSet(op, k) then 0 else At(s.list, k).hits + (if op.OpGet? && op.key == k then 1 else 0)
  }

  lemma StepHits(s: State, op: Op, k: Bytes)
    requires Inv(s) && Resident(Step(s, op).list, k)
    ensures Resident(s.list, k) || IsSet(op, k)
    ensures At(Step(s, op).list, k).hits == HitsAfter(s, op, k)
  {
    hide Clone, MessageSize, SizeSum, Set, Get, GetStaleOnError, Delete, ApplyConfig, PrefetchDone, NewEntry;
    LeavesExactly(s, op, k);
    match op
    case OpSet(key, value, ttl, now) =>
      if IsSet(op, key) {
        SetHits(s, op, k);
      } else {
        VoidSet(s, op);
      }
    case OpGet(key, now) => GetHits(s, key, now, k);
    case OpStaleOnError(key, _) => RemovalHits(s, op, k);
    case OpDelete(key) => RemovalHits(s, op, k);
    case OpConfigure(u) =>
      ConfigureHits(s, u, k);
    case OpPrefetchDone(key) => DoneHits(s, key, k);
    case _ =>
  }

  lemma RemovalHits(s: State, op: Op, k: Bytes)
    requires Inv(s) && (op.OpDelete? || op.OpStaleOnError?) && Resident(Step(s, op).list, k)
    ensures Resident(s.list, k) && At(Step(s, op).list, k) == At(s.list, k)
  {
    hide Clone, SizeSum;
    if Resident(s.list, op.key) {
      AfterRemove(s.list, Find(s.list, op.key), k);
    }
  }

  lemma ConfigureHits(s: State, u: ConfigUpdate, k: Bytes)
    requires Inv(s) && Resident(ApplyConfig(s, u).list, k)
    ensures Resident(s.list, k) && At(ApplyConfig(s, u).list, k) == At(s.list, k)
  {
    hide SizeSum;
    if u.maxEntries.Some? && u.maxEntries.value > 0 {
      ShrinkDropsTail(s.(cfg := s.cfg.(maxEntries := u.maxEntries.value)));
      hide Shrink;
      AfterPrefix(s.list, |Resize(s, u.maxEntries).list|, k);
    }
  }

  lemma DoneHits(s: State, key: Bytes, k: Bytes)
    requires Inv(s) && Resident(PrefetchDone(s, key).list, k)
    ensures Resident(s.list, k)
    ensures var e := At(s.list, k); At(PrefetchDone(s, key).list, k) == if k == key then e.(refreshing := false) else e
  {
    hide SizeSum;
    var i := Find(s.list, key);
    if i < |s.list| {
      var t := s.list[i := s.list[i].(refreshing := false)];
      var j := Find(t, k);
      AtIs(s.list, j);
      AtIs(s.list, i);
    }
  }

  lemma SetHits(s: State, op: Op, k: Bytes)
    requires Inv(s) && op.OpSet? && IsSet(op, op.key) && Resident(Step(s, op).list, k)
    ensures Resident(s.list, k) || IsSet(op, k)
    ensures k == op.key ==> At(Step(s, op).list, k) == NewEntry(s.cfg, op.key, op.value.value, op.ttl, op.now)
    ensures k != op.key ==> Resident(s.list, k) && At(Step(s, op).list, k) == At(s.list, k)
    ensures At(Step(s, op).list, k).hits == HitsAfter(s, op, k)
  {
    hide Clone, MessageSize, SizeSum;
    var item := NewEntry(s.cfg, op.key, op.value.value, op.ttl, op.now);
    assert item.key == op.key && item.hits == 0;
    hide NewEntry;
    if Resident(s.list, op.key) {
      AfterFront(s.list, Find(s.list, op.key), item, k);
    } else {
      var _ := InsertKeeps(s, op, item);
      InvDistinct(s);
      hide Set, Inv, Evolves;
      AfterInsert(s.list, item, if |s.list| < s.cfg.maxEntries then |s.list| + 1 else s.cfg.maxEntries, k);
    }
  }

  lemma AfterInsert(list: seq<Entry>, item: Entry, n: nat, k: Bytes)
    requires DistinctKeys(list) && !Resident(list, item.key) && 1 <= n <= |list| + 1 && Resident(([item] + list)[..n], k)
    ensures At(([item] + list)[..n], k) == if k == item.key then item else At(list, k)
    ensures k != item.key ==> Resident(list, k)
  {
    var longer := [item] + list;
    assert longer[1..] == list && DistinctKeys(longer);
    AfterPrefix(longer, n, k);
    AtIs(longer, 0);
  }

  lemma GetHits(s: State, key: Bytes, now: int, k: Bytes)
    requires Inv(s) && Resident(Get(s, key, now).0.list, k)
    ensures Resident(s.list, k) && At(Get(s, key, now).0.list, k).hits == HitsAfter(s, OpGet(key, now), k)
  {
    hide Get, Servable, ToFront, RemoveAt;
    GetMisses(s, key, now);
    InvDistinct(s);
    hide Inv;
    var i := Find(s.list, key);
    if i < |s.list| {
      if now >= s.list[i].expiresAt && now >= s.list[i].staleUntil && !Servable(s.cfg, s.list[i], now) {
        GetRemoves(s, key, now);
        AfterRemove(s.list, i, k);
        Gone(s.list, i);
      } else {
        var e := GetMoves(s, key, now);
        GetCountsHit(s, key, now);
        FoundFirst(s.list, i, e);
        AfterFront(s.list, i, e, k);
      }
    }
  }

  lemma GetMisses(s: State, key: Bytes, now: int)
    ensures !Resident(s.list, key) ==> Get(s, key, now).0.list == s.list
  {
    hide Clone;
  }

  lemma GetCountsHit(s: State, key: Bytes, now: int)
    requires Resident(s.list, key)
    requires var e := s.list[Find(s.list, key)]; now < e.expiresAt || now < e.staleUntil || Servable(s.cfg, e, now)
    ensures Get(s, key, now).0.list != [] && Get(s, key, now).0.list[0].hits == s.list[Find(s.list, key)].hits + 1
  {
    hide Clone;
  }

  // ---- hits ----

  /** The Gets of a key since it was last Set. */
  function GetsSince(ops: seq<Op>, key: Bytes): nat {
    if ops == [] || IsSet(ops[|ops| - 1], key) then 0
    else
      var n := |ops| - 1;
      GetsSince(ops[..n], key) + (if ops[n].OpGet? && ops[n].key == key then 1 else 0)
  }

  /** After every run the hit count of a resident entry is the number of Gets since its last Set. */
  lemma {:induction false} HitsCounted(o: Config, prefetch: bool, ops: seq<Op>, key: Bytes)
    requires Resident(Run(NewState(o, prefetch), ops).list, key)
    ensures At(Run(NewState(o, prefetch), ops).list, key).hits == GetsSince(ops, key)
  {
    hide Step, Inv, HitsAfter, At;
    var s0 := NewState(o, prefetch);
    if ops != [] {
      var n := |ops| - 1;
      var s := Run(s0, ops[..n]);
      RunInv(o, prefetch, ops[..n]);
      StepHits(s, ops[n], key);
      HitsAfterIs(s, ops[n], key);
      if !IsSet(ops[n], key) {
        HitsCounted(o, prefetch, ops[..n], key);
      }
    }
  }

  lemma HitsAfterIs(s: State, op: Op, k: Bytes)
    requires Resident(s.list, k) || IsSet(op, k)
    ensures IsSet(op, k) ==> HitsAfter(s, op, k) == 0
    ensures !IsSet(op, k) ==> Resident(s.list, k)
                              && HitsAfter(s, op, k) == At(s.list, k).hits + (if op.OpGet? && op.key == k then 1 else 0)
  {
  }

  // ---- counters ----

  function One(b: bool): nat {
    if b then 1 else 0
  }

  /** Whether a Get starts a prefetch, in terms of the entry it finds. */
  predicate Prefetches(s: State, key: Bytes, now: int) {
    && s.prefetch && Resident(s.list, key)
    && var e := At(s.list, key);
    && (now < e.expiresAt || now < e.staleUntil)
    && !e.refreshing && e.hits >= 2 && e.originalTTL > 0 && e.expiresAt - now <= e.originalTTL / 10
  }

  /** What a Get counts: a hit or a miss as it answers, stale hits, the first time an entry is found expired, and prefetches. */
  lemma GetCounts(s: State, key: Bytes, now: int)
    ensures var (t, r) := Get(s, key, now);
            && t.stats.hits == s.stats.hits + One(r.hit) && t.stats.misses == s.stats.misses + One(!r.hit)
            && t.stats.staleHits == s.stats.staleHits + One(r.stale)
            && t.stats.expirations == s.stats.expirations
                                      + One(Resident(s.list, key) && now >= At(s.list, key).expiresAt && !At(s.list, key).expired)
            && t.stats.prefetches == s.stats.prefetches + One(Prefetches(s, key, now))
            && t.stats.evictions == s.stats.evictions
  {
    hide Clone;
  }

  /** Evictions are the entries a Set pushes out of a full list, and those a resize cuts off. */
  lemma EvictionsCounted(s: State, op: Op)
    requires Inv(s)
    ensures var t := Step(s, op);
            t.stats.evictions == s.stats.evictions
                                 + (if op.OpSet? && IsSet(op, op.key) then |s.list| + One(!Resident(s.list, op.key)) - |t.list|
                                    else if op.OpConfigure? then |s.list| - |t.list| else 0)
  {
    hide Clone, MessageSize, SizeSum;
    match op
    case OpConfigure(u) =>
      if u.maxEntries.Some? && u.maxEntries.value > 0 {
        ShrinkDropsTail(s.(cfg := s.cfg.(maxEntries := u.maxEntries.value)));
      }
    case _ =>
  }

  /**
   When a prefetch starts, over runs: on the third Get of a key or later since its last Set, in the
   last tenth of its lifetime or the stale window after it, while none is outstanding.
   */
  lemma PrefetchMeans(o: Config, prefetch: bool, ops: seq<Op>, key: Bytes, now: int)
    ensures var s0 := NewState(o, prefetch);
            var s := Run(s0, ops);
            && (Resident(s.list, key) ==> LastSet(ops, key).Some?)
            && (Prefetches(s, key, now) <==>
                  && s.prefetch && Resident(s.list, key) && !At(s.list, key).refreshing && GetsSince(ops, key) >= 2
                  && var k := LastSet(ops, key).value;
                  var cfg := Run(s0, ops[..k]).cfg;
                  forall life :: Clamped(cfg, ops[k].ttl, life) ==>
                    var left := ops[k].now + life - now;
                    life > 0 && -left < cfg.staleWindow && left <= life / 10)
  {
    hide Run, Clone, MessageSize;
    var s0 := NewState(o, prefetch);
    var s := Run(s0, ops);
    if Resident(s.list, key) {
      var e := At(s.list, key);
      assert e in s.list;
      HitsCounted(o, prefetch, ops, key);
      Provenance(o, prefetch, ops);
      assert FromLastSet(s0, ops, e);
      var k := LastSet(ops, key).value;
      ClampExactly(Run(s0, ops[..k]).cfg, ops[k].ttl);
      var life := ClampTTL(Run(s0, ops[..k]).cfg, ops[k].ttl);
      RunInv(o, prefetch, ops[..k]);
      assert Clamped(Run(s0, ops[..k]).cfg, ops[k].ttl, life);
      hide Clamped, ClampTTL;
      assert e.expiresAt == ops[k].now + life && e.originalTTL == life;
      assert e.staleUntil == ops[k].now + life + Run(s0, ops[..k]).cfg.staleWindow;
    }
  }

  /** A started prefetch marks the entry, which keeps the mark until it is Set again or the prefetch is over. */
  lemma MarkKept(s: State, op: Op, k: Bytes)
    requires Inv(s) && Resident(s.list, k) && Resident(Step(s, op).list, k) && At(s.list, k).refreshing
    ensures At(Step(s, op).list, k).refreshing <==> !IsSet(op, k) && op != OpPrefetchDone(k)
  {
    hide Clone, MessageSize, SizeSum, Set, Get, GetStaleOnError, Delete, ApplyConfig, PrefetchDone, NewEntry;
    match op
    case OpSet(key, value, ttl, now) =>
      if IsSet(op, key) {
        SetHits(s, op, k);
        FreshUnmarked(s.cfg, key, value.value, ttl, now);
      } else {
        VoidSet(s, op);
      }
    case OpGet(key, now) => GetMarks(s, key, now, k);
    case OpStaleOnError(key, _) => RemovalHits(s, op, k);
    case OpDelete(key) => RemovalHits(s, op, k);
    case OpConfigure(u) => ConfigureHits(s, u, k);
    case OpPrefetchDone(key) => DoneHits(s, key, k);
    case _ =>
  }

  lemma FreshUnmarked(cfg: Config, key: Bytes, value: Message, ttl: int, now: int)
    ensures !NewEntry(cfg, key, value, ttl, now).refreshing
  {
    hide Clone, MessageSize;
  }

  lemma GetMarks(s: State, key: Bytes, now: int, k: Bytes)
    requires Inv(s) && Resident(Get(s, key, now).0.list, k)
    ensures Resident(s.list, k)
    ensures At(Get(s, key, now).0.list, k).refreshing == (At(s.list, k).refreshing || (k == key && Prefetches(s, key, now)))
  {
    hide Get, Servable, ToFront, RemoveAt;
    GetMisses(s, key, now);
    InvDistinct(s);
    hide Inv;
    var i := Find(s.list, key);
    if i < |s.list| {
      if now >= s.list[i].expiresAt && now >= s.list[i].staleUntil && !Servable(s.cfg, s.list[i], now) {
        GetRemoves(s, key, now);
        AfterRemove(s.list, i, k);
        Gone(s.list, i);
      } else {
        var e := GetMoves(s, key, now);
        GetMark(s, key, now);
        FoundFirst(s.list, i, e);
        AfterFront(s.list, i, e, k);
      }
    }
  }

  lemma GetMark(s: State, key: Bytes, now: int)
    requires Resident(s.list, key)
    requires var e := s.list[Find(s.list, key)]; now < e.expiresAt || now < e.staleUntil || Servable(s.cfg, e, now)
    ensures Get(s, key, now).0.list != []
    ensures Get(s, key, now).0.list[0].refreshing == (At(s.list, key).refreshing || Prefetches(s, key, now))
  {
    hide Clone;
  }

  // ---- negative answers ----

  /** How long the negative answer stored by operation k is held. */
  ghost function NegativeExpiry(s0: State, ops: seq<Op>, k: nat): int
    requires k < |ops| && ops[k].OpSetNegative?
  {
    ops[k].now + ClampTTL(Run(s0, ops[..k]).cfg, ops[k].ttl)
  }

  /**
   The SetNegative that a key's negative answer comes from: its last one, unless it was deleted or
   flushed since, or looked up when it was over.
   */
  ghost function Source(s0: State, ops: seq<Op>, key: Bytes): (r: Option<nat>)
    ensures r.Some? ==> r.value < |ops| && ops[r.value].OpSetNegative? && ops[r.value].key == key
  {
    if ops == [] then None
    else
      var n := |ops| - 1;
      var before := Source(s0, ops[..n], key);
      match ops[n]
      case OpSetNegative(k, _, _, _, _) => if k == key then Some(n) else before
      case OpDelete(k) => if k == key then None else before
      case OpFlush => None
      case OpGetNegative(k, now) =>
        if k == key && before.Some? && now > NegativeExpiry(s0, ops[..n], before.value) then None else before
      case _ => before
  }

  /** The negative entry an operation leaves for a key. */
  function NegativeAfter(s: State, op: Op, key: Bytes): Option<NegativeEntry> {
    var before := if key in s.negative then Some(s.negative[key]) else None;
    match op
    case OpSetNegative(k, rcode, ttl, soa, now) =>
      if k == key then Some(NegativeEntry(key, rcode, now + ClampTTL(s.cfg, ttl), soa)) else before
    case OpDelete(k) => if k == key then None else before
    case OpFlush => None
    case OpGetNegative(k, now) => if k == key && before.Some? && now > before.value.expiresAt then None else before
    case _ => before
  }

  lemma StepNegative(s: State, op: Op, key: Bytes)
    requires Inv(s)
    ensures var t := Step(s, op);
            (if key in t.negative then Some(t.negative[key]) else None) == NegativeAfter(s, op, key)
  {
    hide Clone, MessageSize, SizeSum;
    match op
    case OpConfigure(u) =>
      if u.maxEntries.Some? && u.maxEntries.value > 0 {
        ShrinkDropsTail(s.(cfg := s.cfg.(maxEntries := u.maxEntries.value)));
      }
    case _ =>
  }

  lemma ExpiryEarlier(s0: State, ops: seq<Op>, k: nat)
    requires k < |ops| - 1 && ops[k].OpSetNegative?
    ensures NegativeExpiry(s0, ops[..|ops| - 1], k) == NegativeExpiry(s0, ops, k)
  {
    hide Run, ClampTTL;
    assert ops[..|ops| - 1][..k] == ops[..k];
  }

  /**
   After every run a negative answer is held for a key exactly when one was stored and neither
   deleted, flushed, replaced nor looked up too late since, and it is the one stored.
   */
  lemma {:induction false} NegativeMeans(o: Config, prefetch: bool, ops: seq<Op>, key: Bytes)
    ensures var s0 := NewState(o, prefetch);
            var s := Run(s0, ops);
            var k := Source(s0, ops, key);
            && (key in s.negative <==> k.Some?)
            && (k.Some? ==> s.negative[key] == NegativeEntry(key, ops[k.value].rcode, NegativeExpiry(s0, ops, k.value), ops[k.value].soa))
  {
    hide Step, Inv, ClampTTL;
    var s0 := NewState(o, prefetch);
    if ops != [] {
      var n := |ops| - 1;
      NegativeMeans(o, prefetch, ops[..n], key);
      RunInv(o, prefetch, ops[..n]);
      StepNegative(Run(s0, ops[..n]), ops[n], key);
      var before := Source(s0, ops[..n], key);
      if before.Some? {
        ExpiryEarlier(s0, ops, before.value);
      }
    }
  }

  /** GetNegative answers with the entry exactly until its expiry, that instant included. */
  lemma NegativeAnswers(s: State, key: Bytes, now: int)
    ensures var r := GetNegative(s, key, now).1;
            && (r.Some? <==> key in s.negative && now <= s.negative[key].expiresAt)
            && (r.Some? ==> r.value == s.negative[key])
  {
  }
}
