/**
 Persist and Load (internal/cache/cache.go): what a snapshot holds, what loading it restores,
 and that a restart changes no answer the cache gives.
 */
module Snapshots {
  import opened Octets
  import opened Durations
  import opened Records
  import opened MessageWire
  import opened CacheSpec
  import opened CacheRuns

  /** `lastGoodWire` is empty when there is no last good message, or it does not encode. */
  datatype SavedEntry = SavedEntry(key: Bytes, wire: Bytes, expiresAt: int, staleUntil: int, lastGoodWire: Bytes,
                                   lastGoodAt: int, hits: int, originalTTL: int)

  datatype Snapshot = Snapshot(entries: seq<SavedEntry>, negative: seq<NegativeEntry>)

  /** What Persist writes for an entry; nothing when its message does not encode. */
  function Saved(e: Entry): Option<SavedEntry> {
    match Encode(e.value)
    case Err => None
    case Ok(wire) =>
      var lastGood := if e.lastGood.Some? then Encode(e.lastGood.value) else Err;
      Some(SavedEntry(e.key, wire, e.expiresAt, e.staleUntil, if lastGood.Ok? then lastGood.value else [],
                      e.lastGoodAt, e.hits, e.originalTTL))
  }

  ghost predicate DistinctSaved(entries: seq<SavedEntry>) {
    forall i, j :: 0 <= i < j < |entries| ==> entries[i].key != entries[j].key
  }

  /** `snap` lists the state's encodable entries once each, and its negative entries, in any order. */
  ghost predicate IsSnapshot(s: State, snap: Snapshot) {
    && DistinctSaved(snap.entries)
    && (forall e :: e in s.list && Saved(e).Some? ==> Saved(e).value in snap.entries)
    && (forall it :: it in snap.entries ==> exists e :: e in s.list && Saved(e) == Some(it))
    && (forall n :: n in snap.negative <==> n in s.negative.Values)
  }

  /** What Load makes of a saved entry; nothing when it is past its stale window or undecodable. */
  function Restored(it: SavedEntry, now: int): Option<Entry> {
    if now > it.staleUntil then None
    else match Decode(it.wire)
      case Err => None
      case Ok(msg) =>
        var lastGood := if it.lastGoodWire != [] then Decode(it.lastGoodWire) else Err;
        Some(Entry(it.key, msg, it.expiresAt, it.staleUntil, if lastGood.Ok? then Some(lastGood.value) else None,
                   it.lastGoodAt, it.hits, it.originalTTL, false, now > it.expiresAt, |it.key| + MessageSize(msg)))
  }

  /** Entries are pushed to the back in snapshot order. */
  function LoadEntries(entries: seq<SavedEntry>, now: int): seq<Entry> {
    if entries == [] then []
    else
      var init := LoadEntries(entries[..|entries| - 1], now);
      var e := Restored(entries[|entries| - 1], now);
      if e.Some? then init + [e.value] else init
  }

  function LoadNegatives(ns: seq<NegativeEntry>, now: int): map<Bytes, NegativeEntry> {
    if ns == [] then map[]
    else
      var init := LoadNegatives(ns[..|ns| - 1], now);
      var n := ns[|ns| - 1];
      if now < n.expiresAt then init[n.key := n] else init
  }

  function Load(s: State, snap: Snapshot, now: int): State {
    var list := LoadEntries(snap.entries, now);
    Shrink(State(s.cfg, list, LoadNegatives(snap.negative, now), s.stats.(memoryBytes := SizeSum(list)), s.prefetch))
  }

  // ---- what a loaded list holds ----

  lemma {:induction false} LoadedFrom(entries: seq<SavedEntry>, now: int)
    ensures |LoadEntries(entries, now)| <= |entries|
    ensures forall it :: it in entries && Restored(it, now).Some? ==> Restored(it, now).value in LoadEntries(entries, now)
    ensures forall e :: e in LoadEntries(entries, now) ==> exists it :: it in entries && Restored(it, now) == Some(e)
    ensures DistinctSaved(entries) ==> DistinctKeys(LoadEntries(entries, now))
  {
    hide Restored;
    if entries != [] {
      var n := |entries| - 1;
      LoadedFrom(entries[..n], now);
      var init, e := LoadEntries(entries[..n], now), Restored(entries[n], now);
      assert entries == entries[..n] + [entries[n]];
      if e.Some? && DistinctSaved(entries) {
        RestoredKey(entries[n], now);
        forall i | 0 <= i < |init|
          ensures init[i].key != e.value.key
        {
          assert init[i] in init;
          var it :| it in entries[..n] && Restored(it, now) == Some(init[i]);
          RestoredKey(it, now);
        }
      }
    }
  }

  lemma RestoredKey(it: SavedEntry, now: int)
    ensures Restored(it, now).Some? ==> Restored(it, now).value.key == it.key
  {
    hide Decode, MessageSize;
  }

  /** Every negative entry is filed under its own key. */
  ghost predicate NegativeKeys(m: map<Bytes, NegativeEntry>) {
    forall k :: k in m ==> m[k].key == k
  }

  lemma {:induction false} LoadedNegatives(ns: seq<NegativeEntry>, now: int, m: map<Bytes, NegativeEntry>)
    requires NegativeKeys(m) && forall n :: n in ns ==> n.key in m && m[n.key] == n
    ensures forall k :: k in LoadNegatives(ns, now) <==> k in m && m[k] in ns && now < m[k].expiresAt
    ensures forall k :: k in LoadNegatives(ns, now) ==> LoadNegatives(ns, now)[k] == m[k]
  {
    if ns != [] {
      var n := |ns| - 1;
      assert ns == ns[..n] + [ns[n]];
      LoadedNegatives(ns[..n], now, m);
    }
  }

  // ---- persisting and loading ----

  /** The entries a restart at `now` keeps. */
  predicate Survives(e: Entry, now: int) {
    now <= e.staleUntil && Encode(e.value).Ok?
  }

  /** `f` is what is left of `e` after a restart: its messages up to name case, its times and counts. */
  ghost predicate SameEntry(e: Entry, f: Entry, now: int) {
    && f.key == e.key && f.expiresAt == e.expiresAt && f.staleUntil == e.staleUntil
    && f.hits == e.hits && f.originalTTL == e.originalTTL && f.lastGoodAt == e.lastGoodAt
    && f.expired == (now > e.expiresAt) && !f.refreshing
    && f.value == Clone(e.value) && f.size == |e.key| + MessageSize(f.value)
    && SameMessage(e.value, f.value, false)
    && (f.lastGood.Some? <==> e.lastGood.Some? && Encode(e.lastGood.value).Ok?)
    && (f.lastGood.Some? ==>
          f.lastGood.value == Clone(e.lastGood.value) && SameMessage(e.lastGood.value, f.lastGood.value, false))
  }

  lemma SavedRestored(e: Entry, now: int)
    ensures Survives(e, now) <==> Saved(e).Some? && Restored(Saved(e).value, now).Some?
    ensures Survives(e, now) ==> SameEntry(e, Restored(Saved(e).value, now).value, now)
  {
    hide Encode, Decode, SameMessage;
    if Encode(e.value).Ok? {
      RoundTrip(e.value, false);
    }
    if e.lastGood.Some? && Encode(e.lastGood.value).Ok? {
      RoundTrip(e.lastGood.value, false);
      EncodeNotEmpty(e.lastGood.value);
    }
  }

  lemma EncodeNotEmpty(m: Message)
    requires Encode(m).Ok?
    ensures Encode(m).value != []
  {
    hide PutSections;
  }

  lemma FindEntry(list: seq<Entry>, e: Entry)
    requires DistinctKeys(list) && e in list
    ensures Resident(list, e.key) && list[Find(list, e.key)] == e
  {
    var i :| 0 <= i < |list| && list[i] == e;
    if i < Find(list, e.key) {
    }
  }

  /**
   Persist then Load, with unchanged limits: the loaded cache holds exactly the entries that
   survive and the negative entries not yet expired, each the same as before, and satisfies
   the invariant.
   */
  lemma Restore(s: State, snap: Snapshot, blank: State, now: int)
    requires Inv(s) && NegativeKeys(s.negative) && IsSnapshot(s, snap)
    requires Inv(blank) && blank.cfg == s.cfg
    ensures var t := Load(blank, snap, now);
            && Inv(t) && t.cfg == s.cfg
            && (forall key :: Resident(t.list, key) <==> Resident(s.list, key) && Survives(s.list[Find(s.list, key)], now))
            && (forall key :: Resident(t.list, key) ==>
                  SameEntry(s.list[Find(s.list, key)], t.list[Find(t.list, key)], now))
            && t.negative == map k | k in s.negative && now < s.negative[k].expiresAt :: s.negative[k]
  {
    hide Saved, Restored, Survives, SameEntry, SizeSum;
    var list := LoadEntries(snap.entries, now);
    LoadedFrom(snap.entries, now);
    SavedAtMost(s, snap);
    LoadedNegatives(snap.negative, now, s.negative);
    forall key
      ensures Resident(list, key) <==> Resident(s.list, key) && Survives(s.list[Find(s.list, key)], now)
      ensures Resident(list, key) ==> SameEntry(s.list[Find(s.list, key)], list[Find(list, key)], now)
    {
      RestoreOne(s, snap, key, now);
    }
  }

  /** Whatever the snapshot, with distinct keys, and however many entries it has: the invariant holds again. */
  lemma LoadInv(s: State, snap: Snapshot, now: int)
    requires Inv(s) && DistinctSaved(snap.entries)
    ensures Inv(Load(s, snap, now))
    ensures var list := LoadEntries(snap.entries, now);
            Load(s, snap, now).list == list[..if |list| > s.cfg.maxEntries then s.cfg.maxEntries else |list|]
  {
    hide Restored, SizeSum;
    var list := LoadEntries(snap.entries, now);
    LoadedFrom(snap.entries, now);
    ShrinkDropsTail(State(s.cfg, list, LoadNegatives(snap.negative, now), s.stats.(memoryBytes := SizeSum(list)), s.prefetch));
  }

  lemma SavedKey(e: Entry)
    ensures Saved(e).Some? ==> Saved(e).value.key == e.key
  {
    hide Encode;
  }

  lemma RestoreOne(s: State, snap: Snapshot, key: Bytes, now: int)
    requires DistinctKeys(s.list) && IsSnapshot(s, snap)
    ensures var list := LoadEntries(snap.entries, now);
            && (Resident(list, key) <==> Resident(s.list, key) && Survives(s.list[Find(s.list, key)], now))
            && (Resident(list, key) ==> SameEntry(s.list[Find(s.list, key)], list[Find(list, key)], now))
  {
    hide Saved, Restored, Survives, SameEntry, LoadEntries;
    var list := LoadEntries(snap.entries, now);
    LoadedFrom(snap.entries, now);
    if Resident(s.list, key) {
      var e := s.list[Find(s.list, key)];
      SavedRestored(e, now);
      if Survives(e, now) {
        var it := Saved(e).value;
        SavedKey(e);
        RestoredKey(it, now);
        FindEntry(list, Restored(it, now).value);
      }
    }
    if Resident(list, key) {
      var f := list[Find(list, key)];
      var it :| it in snap.entries && Restored(it, now) == Some(f);
      var e :| e in s.list && Saved(e) == Some(it);
      SavedKey(e);
      RestoredKey(it, now);
      FindEntry(s.list, e);
      SavedRestored(e, now);
    }
  }

  /** A snapshot has no more entries than the list it was taken from. */
  lemma SavedAtMost(s: State, snap: Snapshot)
    requires DistinctKeys(s.list) && IsSnapshot(s, snap)
    ensures |snap.entries| <= |s.list|
  {
    hide Saved;
    var keys := seq(|s.list|, i requires 0 <= i < |s.list| => s.list[i].key);
    var saved := seq(|snap.entries|, i requires 0 <= i < |snap.entries| => snap.entries[i].key);
    forall k | k in saved
      ensures k in keys
    {
      var i :| 0 <= i < |saved| && saved[i] == k;
      assert snap.entries[i] in snap.entries;
      var e :| e in s.list && Saved(e) == Some(snap.entries[i]);
      SavedKey(e);
      var j :| 0 <= j < |s.list| && s.list[j] == e;
      assert keys[j] == k;
    }
    Pigeonhole(saved, keys);
  }

  lemma {:induction false} Pigeonhole(a: seq<Bytes>, b: seq<Bytes>)
    requires forall i, j :: 0 <= i < j < |a| ==> a[i] != a[j]
    requires forall k :: k in a ==> k in b
    ensures |a| <= |b|
  {
    if a != [] {
      var n := |a| - 1;
      assert a[n] in a;
      var i :| 0 <= i < |b| && b[i] == a[n];
      var rest := b[..i] + b[i + 1..];
      forall k | k in a[..n]
        ensures k in rest
      {
        assert k in a;
        var j :| 0 <= j < |b| && b[j] == k;
        assert rest[if j < i then j else j - 1] == k;
      }
      Pigeonhole(a[..n], rest);
    }
  }

  // ---- what a client sees after a restart ----

  lemma StepNegativeKeys(s: State, op: Op)
    requires Inv(s) && NegativeKeys(s.negative)
    ensures NegativeKeys(Step(s, op).negative)
  {
    hide Clone, MessageSize, SizeSum;
    match op
    case OpConfigure(u) =>
      if u.maxEntries.Some? && u.maxEntries.value > 0 {
        ShrinkDropsTail(s.(cfg := s.cfg.(maxEntries := u.maxEntries.value)));
      }
    case _ =>
  }

  lemma {:induction false} RunNegativeKeys(o: Config, prefetch: bool, ops: seq<Op>)
    ensures NegativeKeys(Run(NewState(o, prefetch), ops).negative)
  {
    hide Step;
    if ops != [] {
      var n := |ops| - 1;
      RunNegativeKeys(o, prefetch, ops[..n]);
      RunInv(o, prefetch, ops[..n]);
      StepNegativeKeys(Run(NewState(o, prefetch), ops[..n]), ops[n]);
    }
  }

  /** After every run the stale window of an entry does not end before its lifetime. */
  lemma WindowOrdered(o: Config, prefetch: bool, ops: seq<Op>)
    ensures forall e :: e in Run(NewState(o, prefetch), ops).list ==> e.expiresAt <= e.staleUntil
  {
    hide Run, Clone, MessageSize;
    var s0 := NewState(o, prefetch);
    Provenance(o, prefetch, ops);
    forall e | e in Run(s0, ops).list
      ensures e.expiresAt <= e.staleUntil
    {
      assert FromLastSet(s0, ops, e);
      RunInv(o, prefetch, ops[..LastSet(ops, e.key).value]);
    }
  }

  /**
   A restart changes no answer: whatever the run before, every later lookup hits or misses,
   fresh or stale, as it would have, with the same message up to name case; only an entry that
   cannot be encoded is not found again.
   */
  lemma RestartKeepsAnswers(o: Config, prefetch: bool, ops: seq<Op>, snap: Snapshot, blank: State, now: int,
                            key: Bytes, later: int)
    requires IsSnapshot(Run(NewState(o, prefetch), ops), snap)
    requires Inv(blank) && blank.cfg == Run(NewState(o, prefetch), ops).cfg && now <= later
    ensures var s := Run(NewState(o, prefetch), ops);
            var before := Get(s, key, later).1;
            var after := Get(Load(blank, snap, now), key, later).1;
            && (before.hit ==> Resident(s.list, key) && before.message.Some?)
            && (after.hit <==> before.hit && Encode(s.list[Find(s.list, key)].value).Ok?)
            && (after.hit ==>
                  && after.stale == before.stale && after.message == Some(Clone(before.message.value))
                  && (after.message == before.message || SameMessage(before.message.value, after.message.value, false)))
  {
    hide Run, Get, Load, Encode, Decode, SameMessage, Inv, IsSnapshot;
    var s := Run(NewState(o, prefetch), ops);
    var t := Load(blank, snap, now);
    RunInv(o, prefetch, ops);
    RunNegativeKeys(o, prefetch, ops);
    WindowOrdered(o, prefetch, ops);
    Restore(s, snap, blank, now);
    GetAnswer(s, key, later);
    GetAnswer(t, key, later);
    if Resident(s.list, key) {
      assert s.list[Find(s.list, key)] in s.list;
      var m := Clone(s.list[Find(s.list, key)].value);
      if Encode(m).Ok? {
        RoundTrip(m, false);
      }
    }
  }

  /**
   The one thing a restart can lose: a last good answer is still served on error exactly when
   it would have been, the entry's stale window had not ended when the cache was loaded, and
   the messages of the entry encode.
   */
  lemma RestartStaleOnError(s: State, snap: Snapshot, blank: State, now: int, key: Bytes, later: int)
    requires Inv(s) && NegativeKeys(s.negative) && IsSnapshot(s, snap)
    requires Inv(blank) && blank.cfg == s.cfg
    ensures GetStaleOnError(s, key, later).1.Some? ==> Resident(s.list, key) && s.list[Find(s.list, key)].lastGood.Some?
    ensures GetStaleOnError(Load(blank, snap, now), key, later).1.Some?
            <==> GetStaleOnError(s, key, later).1.Some? && var e := s.list[Find(s.list, key)];
                 now <= e.staleUntil && Encode(e.value).Ok? && Encode(e.lastGood.value).Ok?
  {
    hide Load, Encode, Decode, SameMessage, Inv, IsSnapshot, Clone;
    Restore(s, snap, blank, now);
  }

  /**
   A negative answer survives a restart, except in one instant: the lookup is still answered
   when now equals the expiry, but Load already drops the entry then.
   */
  lemma RestartNegative(s: State, snap: Snapshot, blank: State, now: int, key: Bytes, later: int)
    requires Inv(s) && NegativeKeys(s.negative) && IsSnapshot(s, snap)
    requires Inv(blank) && blank.cfg == s.cfg && now <= later
    ensures GetNegative(Load(blank, snap, now), key, later).1 == GetNegative(s, key, later).1
            <==> !(key in s.negative && s.negative[key].expiresAt == now == later)
  {
    hide Load, IsSnapshot, Inv;
    Restore(s, snap, blank, now);
  }

  // ---- what a restart loses, on real runs ----

  /** Settings with a lifetime of one second, no stale window, and an hour of serving on error. */
  const SHORT := Config(1, SECOND, SECOND, 0, HOUR)

  /** Two seconds after a Set the answer is still served on error; after a restart then, it is not. */
  lemma StaleAnswerLost(key: Bytes, m: Message, blank: State)
    requires key != [] && Inv(blank) && blank.cfg == NewConfig(SHORT)
    ensures var s := Run(NewState(SHORT, false), [OpSet(key, Some(m), SECOND, 1)]);
            var now := 1 + 2 * SECOND;
            && Inv(s) && s.cfg == blank.cfg
            && GetStaleOnError(s, key, now).1.Some?
            && forall snap :: IsSnapshot(s, snap) ==> GetStaleOnError(Load(blank, snap, now), key, now).1.None?
  {
    hide Clone, MessageSize, Load, IsSnapshot, Inv;
    var op := OpSet(key, Some(m), SECOND, 1);
    var s := Run(NewState(SHORT, false), [op]);
    var now := 1 + 2 * SECOND;
    RunInv(SHORT, false, [op]);
    RunNegativeKeys(SHORT, false, [op]);
    assert [op][..0] == [];
    assert s == Step(NewState(SHORT, false), op);
    hide Run;
    forall snap | IsSnapshot(s, snap)
      ensures GetStaleOnError(Load(blank, snap, now), key, now).1.None?
    {
      RestartStaleOnError(s, snap, blank, now, key, now);
    }
  }

  /** A negative answer looked up at the instant of its expiry is found; after a restart then, it is not. */
  lemma NegativeAnswerLost(key: Bytes, rcode: byte, soa: Bytes, blank: State)
    requires Inv(blank) && blank.cfg == NewConfig(SHORT)
    ensures var s := Run(NewState(SHORT, false), [OpSetNegative(key, rcode, SECOND, soa, 0)]);
            && Inv(s) && s.cfg == blank.cfg
            && GetNegative(s, key, SECOND).1.Some?
            && forall snap :: IsSnapshot(s, snap) ==> GetNegative(Load(blank, snap, SECOND), key, SECOND).1.None?
  {
    hide Load, IsSnapshot, Inv;
    var op := OpSetNegative(key, rcode, SECOND, soa, 0);
    var s := Run(NewState(SHORT, false), [op]);
    RunInv(SHORT, false, [op]);
    RunNegativeKeys(SHORT, false, [op]);
    assert [op][..0] == [];
    assert s == Step(NewState(SHORT, false), op);
    hide Run;
    forall snap | IsSnapshot(s, snap)
      ensures GetNegative(Load(blank, snap, SECOND), key, SECOND).1.None?
    {
      Restore(s, snap, blank, SECOND);
    }
  }
}
