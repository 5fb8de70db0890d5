/**
 The cache of internal/cache as it is built: a list of mutable elements, a map from keys to
 those elements, a map of negative entries, and the settings and counters. Every method is
 proved to take the abstract state exactly as CacheSpec's step does.
 */
module Cache {
  import opened Octets
  import opened Records
  import opened CacheSpec
  import opened Snapshots

  /** An element of container/list, holding an entry. */
  class Element {
    var entry: Entry

    constructor (e: Entry)
      ensures entry == e
    {
      entry := e;
    }
  }

  /** The entries of the elements, in list order. */
  function Entries(els: seq<Element>): (r: seq<Entry>)
    reads els
    ensures |r| == |els| && forall i :: 0 <= i < |els| ==> r[i] == els[i].entry
  {
    seq(|els|, i requires 0 <= i < |els| reads els => els[i].entry)
  }

  function IndexOf(els: seq<Element>, el: Element): (i: nat)
    requires el in els
    ensures i < |els| && els[i] == el
  {
    if els[0] == el then 0 else 1 + IndexOf(els[1..], el)
  }

  ghost predicate Distinct<T>(s: seq<T>) {
    forall i, j :: 0 <= i < j < |s| ==> s[i] != s[j]
  }

  /** The list holds each element once, and the map holds exactly its keys. */
  ghost predicate Tied(lru: seq<Element>, items: map<Bytes, Element>)
    reads lru
  {
    && Distinct(lru)
    && (forall el :: el in lru ==> el.entry.key in items && items[el.entry.key] == el)
    && (forall k :: k in items ==> items[k] in lru && items[k].entry.key == k)
  }

  function Without<T>(s: seq<T>, i: nat): (r: seq<T>)
    requires i < |s|
    ensures forall x :: x in r ==> x in s
  {
    s[..i] + s[i + 1..]
  }

  lemma WithoutMembers<T>(s: seq<T>, i: nat)
    requires Distinct(s) && i < |s|
    ensures Distinct(Without(s, i)) && forall x :: x in Without(s, i) <==> x in s && x != s[i]
  {
    forall x | x in s && x != s[i]
      ensures x in Without(s, i)
    {
      var k :| 0 <= k < |s| && s[k] == x;
      assert Without(s, i)[if k < i then k else k - 1] == x;
    }
  }

  lemma DistinctFirst<T>(x: T, s: seq<T>)
    requires Distinct(s) && x !in s
    ensures Distinct([x] + s) && forall y :: y in [x] + s <==> y == x || y in s
  {
  }

  lemma EntriesOfFront(el: Element, lru: seq<Element>)
    ensures Entries([el] + lru) == [el.entry] + Entries(lru)
  {
    assert ([el] + lru)[1..] == lru;
  }

  /** Keys are found through the map exactly where the list holds them. */
  lemma Lookup(lru: seq<Element>, items: map<Bytes, Element>, key: Bytes)
    requires Tied(lru, items)
    ensures DistinctKeys(Entries(lru))
    ensures Resident(Entries(lru), key) <==> key in items
    ensures key in items ==> items[key] in lru && IndexOf(lru, items[key]) == Find(Entries(lru), key)
  {
    var list := Entries(lru);
    forall i, j | 0 <= i < j < |list|
      ensures list[i].key != list[j].key
    {
      assert lru[i] in lru && lru[j] in lru;
    }
    var i := Find(list, key);
    if i < |list| {
      assert lru[i] in lru;
    }
  }

  lemma EntriesWithout(lru: seq<Element>, i: nat)
    requires i < |lru|
    ensures Entries(Without(lru, i)) == RemoveAt(Entries(lru), i)
  {
  }

  lemma TiedRemove(lru: seq<Element>, items: map<Bytes, Element>, i: nat)
    requires Tied(lru, items) && i < |lru|
    ensures Tied(Without(lru, i), items - {lru[i].entry.key})
    ensures Entries(Without(lru, i)) == RemoveAt(Entries(lru), i)
    ensures forall el :: el in Without(lru, i) ==> el in lru
  {
    hide Entries, Without, Distinct, RemoveAt;
    EntriesWithout(lru, i);
    WithoutMembers(lru, i);
    assert lru[i] in lru;
  }

  lemma TiedFront(lru: seq<Element>, items: map<Bytes, Element>, i: nat)
    requires Tied(lru, items) && i < |lru|
    ensures Tied([lru[i]] + Without(lru, i), items)
    ensures Entries([lru[i]] + Without(lru, i)) == ToFront(Entries(lru), i, lru[i].entry)
    ensures forall el :: el in [lru[i]] + Without(lru, i) <==> el in lru
  {
    hide Entries, Without;
    EntriesWithout(lru, i);
    EntriesOfFront(lru[i], Without(lru, i));
    WithoutMembers(lru, i);
    DistinctFirst(lru[i], Without(lru, i));
    hide Distinct;
  }

  class Cache {
    var maxEntries: int
    var minTTL: int
    var maxTTL: int
    var staleWindow: int
    var staleMaxAge: int
    var prefetch: bool
    var lru: seq<Element>
    var items: map<Bytes, Element>
    var negative: map<Bytes, NegativeEntry>
    var stats: Stats

    ghost predicate Valid()
      reads this, lru
    {
      Tied(lru, items)
    }

    function Cfg(): Config
      reads this
    {
      Config(maxEntries, minTTL, maxTTL, staleWindow, staleMaxAge)
    }

    /** The state as CacheSpec sees it. */
    function View(): State
      reads this, lru
    {
      State(Cfg(), Entries(lru), negative, stats, prefetch)
    }

    constructor (o: Config, callback: bool)
      ensures Valid() && lru == []
      ensures View() == NewState(o, callback)
    {
      var c := NewConfig(o);
      maxEntries, minTTL, maxTTL := c.maxEntries, c.minTTL, c.maxTTL;
      staleWindow, staleMaxAge := c.staleWindow, c.staleMaxAge;
      prefetch, lru, items, negative, stats := callback, [], map[], map[], Stats(0, 0, 0, 0, 0, 0, 0);
    }

    // ---- container/list ----

    method MoveToFront(el: Element)
      requires Valid() && el in lru
      modifies this`lru
      ensures Valid() && lru == [el] + old(Without(lru, IndexOf(lru, el)))
      ensures View() == old(View()).(list := ToFront(old(View()).list, old(IndexOf(lru, el)), el.entry))
    {
      hide Tied, Entries, Without, ToFront;
      var i := IndexOf(lru, el);
      TiedFront(lru, items, i);
      lru := [el] + Without(lru, i);
    }

    method RemoveElement(el: Element)
      requires Valid() && el in lru
      modifies this`lru, this`items, this`stats
      ensures Valid() && lru == old(Without(lru, IndexOf(lru, el)))
      ensures View() == Remove(old(View()), old(IndexOf(lru, el)))
    {
      hide Tied, Entries, Without, RemoveAt;
      var i := IndexOf(lru, el);
      TiedRemove(lru, items, i);
      items := items - {el.entry.key};
      lru := Without(lru, i);
      if stats.memoryBytes >= el.entry.size {
        stats := stats.(memoryBytes := stats.memoryBytes - el.entry.size);
      } else {
        stats := stats.(memoryBytes := 0);
      }
    }

    method EvictOldest()
      requires Valid()
      modifies this`lru, this`items, this`stats
      ensures Valid() && lru <= old(lru) && |lru| == old(if lru == [] then 0 else |lru| - 1)
      ensures View() == Evict(old(View()))
    {
      hide Tied, Entries, Remove;
      if |lru| == 0 {
        return;
      }
      var el := lru[|lru| - 1];
      LastIndex(lru, items);
      RemoveElement(el);
      stats := stats.(evictions := stats.evictions + 1);
    }

    /** Store an entry of the same key in an element of the list. */
    method PutEntry(el: Element, e: Entry)
      requires Valid() && el in lru && e.key == el.entry.key
      modifies el
      ensures Valid() && el.entry == e
      ensures View() == old(View()).(list := old(View()).list[IndexOf(lru, el) := e])
    {
      hide Distinct;
      el.entry := e;
      DistinctAt(lru, IndexOf(lru, el));
      assert Entries(lru) == old(Entries(lru))[IndexOf(lru, el) := e];
    }

    // ---- operations ----

    method Set(key: Bytes, value: Option<Message>, ttl: int, now: int)
      requires Valid()
      modifies this`lru, this`items, this`stats, lru
      ensures Valid() && forall el :: el in lru ==> el in old(lru) || fresh(el)
      ensures View() == CacheSpec.Set(old(View()), key, value, ttl, now)
    {
      hide Tied, Entries, NewEntry, Evict, ToFront;
      if value.None? || key == [] {
        return;
      }
      var item := NewEntry(Cfg(), key, value.value, ttl, now);
      Lookup(lru, items, key);
      NewEntryKey(Cfg(), key, value.value, ttl, now);
      if key in items {
        TiedKey(lru, items, key);
        Renew(items[key], item);
        return;
      }
      Push(item);
      if |lru| > maxEntries {
        EvictOldest();
      }
    }

    /** Set's branch for a key that is present. */
    method Renew(el: Element, item: Entry)
      requires Valid() && el in lru && item.key == el.entry.key
      modifies this`lru, this`stats, el
      ensures Valid() && forall x :: x in lru ==> x in old(lru)
      ensures var s, i := old(View()), old(IndexOf(lru, el));
              View() == s.(list := ToFront(s.list, i, item),
                           stats := s.stats.(memoryBytes := Minus64(s.stats.memoryBytes, s.list[i].size) + item.size))
    {
      hide Tied, Entries, ToFront, Distinct;
      ghost var list, i := View().list, IndexOf(lru, el);
      stats := stats.(memoryBytes := Minus64(stats.memoryBytes, el.entry.size));
      PutEntry(el, item);
      MoveToFront(el);
      FrontOfUpdated(list, i, item, item);
      stats := stats.(memoryBytes := stats.memoryBytes + item.size);
    }

    /** Set's branch for a new key, before the limit is looked at. */
    method Push(item: Entry)
      requires Valid() && item.key !in items
      modifies this`lru, this`items, this`stats
      ensures Valid() && forall el :: el in lru ==> el in old(lru) || fresh(el)
      ensures |lru| == old(|lru|) + 1
      ensures var s := old(View());
              View() == s.(list := [item] + s.list, stats := s.stats.(memoryBytes := s.stats.memoryBytes + item.size))
    {
      hide Tied, Entries;
      var el := new Element(item);
      TiedInsert(lru, items, el);
      lru := [el] + lru;
      items := items[item.key := el];
      stats := stats.(memoryBytes := stats.memoryBytes + item.size);
    }

    /** Count a lookup that found an element, and make it the most recent one. */
    method Touch(el: Element)
      requires Valid() && el in lru
      modifies this`lru, el
      ensures Valid() && lru != [] && lru[0] == el && forall x :: x in lru ==> x in old(lru)
      ensures var s, i := old(View()), old(IndexOf(lru, el));
              && el.entry == s.list[i].(hits := s.list[i].hits + 1)
              && View() == s.(list := ToFront(s.list, i, el.entry))
    {
      hide Tied, Entries, ToFront, Distinct;
      ghost var list, i := View().list, IndexOf(lru, el);
      PutEntry(el, el.entry.(hits := el.entry.hits + 1));
      MoveToFront(el);
      FrontOfUpdated(list, i, el.entry, el.entry);
    }

    method Get(key: Bytes, now: int) returns (r: GetResult)
      requires Valid()
      modifies this`lru, this`items, this`stats, lru
      ensures Valid() && forall el :: el in lru ==> el in old(lru)
      ensures View() == CacheSpec.Get(old(View()), key, now).0
      ensures r == CacheSpec.Get(old(View()), key, now).1
    {
      hide Tied, Entries, Clone, ToFront, Remove, Distinct, CacheSpec.Get;
      ghost var s := View();
      Lookup(lru, items, key);
      if key !in items {
        GetAbsent(s, key, now);
        stats := stats.(misses := stats.misses + 1);
        return MISS;
      }
      var el := items[key];
      Touch(el);
      ghost var e := el.entry;
      if now < el.entry.expiresAt {
        r := ServeHit(el, now, false);
        FrontOfUpdated(s.list, Find(s.list, key), e, el.entry);
        GetFresh(s, key, now, View());
        return;
      }
      r := GetExpired(el, now, s, key);
    }

    /** The rest of Get for an entry past its expiry; `s` is the state before the call. */
    method GetExpired(el: Element, now: int, ghost s: State, ghost key: Bytes) returns (r: GetResult)
      requires Valid() && lru != [] && lru[0] == el
      requires Resident(s.list, key) && el.entry == Found(s, key) && now >= el.entry.expiresAt
      requires Moved(s, key, el.entry, View()) && stats == s.stats
      modifies this`lru, this`items, this`stats, el
      ensures Valid() && forall x :: x in lru ==> x in old(lru)
      ensures View() == CacheSpec.Get(s, key, now).0
      ensures r == CacheSpec.Get(s, key, now).1
    {
      hide Tied, Entries, Clone, ToFront, Remove, Distinct, CacheSpec.Get;
      ghost var e := el.entry;
      FrontOfUpdated(s.list, Find(s.list, key), e, e.(expired := true));
      MarkExpired(el);
      if now < el.entry.staleUntil {
        r := ServeHit(el, now, true);
        FrontOfUpdated(s.list, Find(s.list, key), e.(expired := true), el.entry);
        GetStale(s, key, now, View());
        return;
      }
      GetLate(s, key, now, View());
      r := MissLate(el, now);
    }

    /** Past its stale window an entry is a miss, and stays only while its last good answer is servable. */
    method MissLate(el: Element, now: int) returns (r: GetResult)
      requires Valid() && lru != [] && lru[0] == el
      modifies this`lru, this`items, this`stats
      ensures Valid() && forall x :: x in lru ==> x in old(lru)
      ensures r == MISS
      ensures var s := old(View());
              var u := if Servable(s.cfg, old(el.entry), now) then s else Remove(s, 0);
              View() == u.(stats := u.stats.(misses := u.stats.misses + 1))
    {
      hide Tied, Entries, Remove;
      if !(el.entry.lastGood.Some? && el.entry.lastGoodAt != ZERO_TIME && now - el.entry.lastGoodAt <= staleMaxAge) {
        RemoveElement(el);
      }
      stats := stats.(misses := stats.misses + 1);
      return MISS;
    }

    /** The first time an entry is found expired is counted. */
    method MarkExpired(el: Element)
      requires Valid() && lru != [] && lru[0] == el
      modifies this`stats, el
      ensures Valid()
      ensures el.entry == old(el.entry).(expired := true)
      ensures var s, n := old(View()), if old(el.entry.expired) then 0 else 1;
              View() == s.(list := s.list[0 := el.entry], stats := s.stats.(expirations := s.stats.expirations + n))
    {
      hide Tied, Entries;
      if !el.entry.expired {
        PutEntry(el, el.entry.(expired := true));
        stats := stats.(expirations := stats.expirations + 1);
      } else {
        assert el.entry == el.entry.(expired := true);
        assert View().list == View().list[0 := el.entry];
      }
    }

    /** The counting, prefetching and copying that both kinds of hit end with. */
    method ServeHit(el: Element, now: int, stale: bool) returns (r: GetResult)
      requires Valid() && lru != [] && lru[0] == el
      modifies this`stats, el
      ensures Valid()
      ensures var start, s, e := old(WantsPrefetch(View(), el.entry, now)), old(View()), old(el.entry);
              && el.entry == e.(refreshing := e.refreshing || start)
              && View() == s.(list := s.list[0 := el.entry],
                              stats := s.stats.(hits := s.stats.hits + 1,
                                                staleHits := s.stats.staleHits + (if stale then 1 else 0),
                                                prefetches := s.stats.prefetches + (if start then 1 else 0)))
      ensures r == GetResult(Some(Clone(old(el.entry.value))), true, stale)
    {
      hide Tied, Entries, Clone;
      stats := stats.(hits := stats.hits + 1);
      if stale {
        stats := stats.(staleHits := stats.staleHits + 1);
      }
      MaybePrefetch(el, now);
      r := GetResult(Some(Clone(el.entry.value)), true, stale);
    }

    /** maybePrefetchLocked: the callback itself runs later and ends with PrefetchDone. */
    method MaybePrefetch(el: Element, now: int)
      requires Valid() && lru != [] && lru[0] == el
      modifies this`stats, el
      ensures Valid()
      ensures var start, s, e := old(WantsPrefetch(View(), el.entry, now)), old(View()), old(el.entry);
              && el.entry == e.(refreshing := e.refreshing || start)
              && View() == s.(list := s.list[0 := el.entry],
                              stats := s.stats.(prefetches := s.stats.prefetches + (if start then 1 else 0)))
    {
      hide Tied, Entries;
      if !prefetch || el.entry.refreshing || el.entry.hits < 3 || el.entry.originalTTL <= 0 {
        return;
      }
      var remaining := el.entry.expiresAt - now;
      if remaining > el.entry.originalTTL / 10 {
        return;
      }
      PutEntry(el, el.entry.(refreshing := true));
      stats := stats.(prefetches := stats.prefetches + 1);
    }

    /** What a prefetch does when its callback has returned. */
    method PrefetchDone(key: Bytes)
      requires Valid()
      modifies lru
      ensures Valid()
      ensures View() == CacheSpec.PrefetchDone(old(View()), key)
    {
      hide Tied, Entries;
      Lookup(lru, items, key);
      if key in items {
        TiedKey(lru, items, key);
        var el := items[key];
        PutEntry(el, el.entry.(refreshing := false));
      }
    }

    method Delete(key: Bytes)
      requires Valid()
      modifies this`lru, this`items, this`stats, this`negative
      ensures Valid() && forall el :: el in lru ==> el in old(lru)
      ensures View() == CacheSpec.Delete(old(View()), key)
    {
      hide Tied, Entries, Remove;
      RemoveKeepsNegative(View(), Find(View().list, key));
      Lookup(lru, items, key);
      if key in items {
        RemoveElement(items[key]);
      }
      negative := negative - {key};
    }

    method Flush()
      requires Valid()
      modifies this`lru, this`items, this`stats, this`negative
      ensures Valid() && lru == []
      ensures View() == CacheSpec.Flush(old(View()))
    {
      lru, items, negative := [], map[], map[];
      stats := stats.(memoryBytes := 0);
    }

    method GetStaleOnError(key: Bytes, now: int) returns (r: Option<Message>)
      requires Valid()
      modifies this`lru, this`items, this`stats
      ensures Valid() && forall el :: el in lru ==> el in old(lru)
      ensures View() == CacheSpec.GetStaleOnError(old(View()), key, now).0
      ensures r == CacheSpec.GetStaleOnError(old(View()), key, now).1
    {
      hide Tied, Entries, Remove, Clone;
      Lookup(lru, items, key);
      if key !in items {
        return None;
      }
      var el := items[key];
      if el.entry.lastGood.None? || el.entry.lastGoodAt == ZERO_TIME {
        return None;
      }
      if now - el.entry.lastGoodAt > staleMaxAge {
        RemoveElement(el);
        return None;
      }
      return Some(Clone(el.entry.lastGood.value));
    }

    method ApplyRuntimeConfig(update: ConfigUpdate) returns (r: Config)
      requires Valid()
      modifies this`lru, this`items, this`stats, this`maxEntries, this`minTTL, this`maxTTL, this`staleWindow, this`staleMaxAge
      ensures Valid() && lru <= old(lru)
      ensures View() == ApplyConfig(old(View()), update)
      ensures r == Cfg()
    {
      hide Tied, Entries, Shrink, Retime;
      if update.maxEntries.Some? && update.maxEntries.value > 0 {
        maxEntries := update.maxEntries.value;
        ShrinkToLimit();
      }
      r := Retimed(Cfg(), update);
      minTTL, maxTTL, staleWindow, staleMaxAge := r.minTTL, r.maxTTL, r.staleWindow, r.staleMaxAge;
    }

    /** The settings of ApplyRuntimeConfig other than the limit. */
    static method Retimed(c: Config, update: ConfigUpdate) returns (r: Config)
      ensures r == Retime(c, update)
      ensures r.maxEntries == c.maxEntries
    {
      r := c;
      if update.minTTL.Some? && update.minTTL.value > 0 {
        r := r.(minTTL := update.minTTL.value);
      }
      if update.maxTTL.Some? && update.maxTTL.value > 0 {
        r := r.(maxTTL := update.maxTTL.value);
      }
      if r.maxTTL < r.minTTL {
        r := r.(maxTTL := r.minTTL);
      }
      if update.staleWindow.Some? && update.staleWindow.value >= 0 {
        r := r.(staleWindow := update.staleWindow.value);
      }
      if update.staleMaxAge.Some? && update.staleMaxAge.value >= 0 {
        r := r.(staleMaxAge := update.staleMaxAge.value);
      }
      if r.staleMaxAge < r.staleWindow {
        r := r.(staleMaxAge := r.staleWindow);
      }
    }

    /** The eviction loop of ApplyRuntimeConfig and Load. */
    method ShrinkToLimit()
      requires Valid()
      modifies this`lru, this`items, this`stats
      ensures Valid() && lru <= old(lru)
      ensures View() == Shrink(old(View()))
    {
      hide Tied, Entries, Evict;
      while lru != [] && |lru| > maxEntries
        invariant Valid() && lru <= old(lru)
        invariant Shrink(View()) == Shrink(old(View()))
        decreases |lru|
      {
        EvictOldest();
      }
    }

    method SetNegative(key: Bytes, rcode: byte, ttl: int, soa: Bytes, now: int)
      requires Valid()
      modifies this`negative
      ensures Valid()
      ensures View() == CacheSpec.SetNegative(old(View()), key, rcode, ttl, soa, now)
    {
      hide Tied, Entries;
      negative := negative[key := NegativeEntry(key, rcode, now + ClampTTL(Cfg(), ttl), soa)];
    }

    method GetNegative(key: Bytes, now: int) returns (r: Option<NegativeEntry>)
      requires Valid()
      modifies this`negative, this`stats
      ensures Valid()
      ensures View() == CacheSpec.GetNegative(old(View()), key, now).0
      ensures r == CacheSpec.GetNegative(old(View()), key, now).1
    {
      hide Tied, Entries;
      if key !in negative {
        stats := stats.(misses := stats.misses + 1);
        return None;
      }
      var found := negative[key];
      if now > found.expiresAt {
        negative := negative - {key};
        stats := stats.(expirations := stats.expirations + 1, misses := stats.misses + 1);
        return None;
      }
      stats := stats.(hits := stats.hits + 1);
      return Some(found);
    }

    /** Persist, up to the writing of the file: the map is walked in no particular order. */
    method Persist() returns (snap: Snapshot)
      requires Valid()
      ensures IsSnapshot(View(), snap)
    {
      hide Tied, Entries, Saved, SavedAll, DistinctSaved;
      SavedNone(items);
      var entries: seq<SavedEntry> := [];
      var rest := items;
      assert items.Keys - rest.Keys == {};
      while rest != map[]
        invariant rest.Keys <= items.Keys && forall k :: k in rest ==> rest[k] == items[k]
        invariant SavedAll(items, items.Keys - rest.Keys, entries)
        decreases |rest|
      {
        var k :| k in rest;
        TiedKey(lru, items, k);
        var saved := Saved(rest[k].entry);
        SavedKey(rest[k].entry);
        SavedMore(items, items.Keys - rest.Keys, entries, k);
        if saved.Some? {
          entries := entries + [saved.value];
        }
        assert items.Keys - (rest - {k}).Keys == (items.Keys - rest.Keys) + {k};
        rest := rest - {k};
      }
      assert items.Keys - rest.Keys == items.Keys;
      SavedList(lru, items, entries);
      var negatives := PersistNegatives();
      snap := Snapshot(entries, negatives);
    }

    method PushBack(e: Entry)
      requires Valid() && e.key !in items
      modifies this`lru, this`items, this`stats
      ensures Valid() && forall el :: el in lru ==> el in old(lru) || fresh(el)
      ensures forall k :: k in items <==> k in old(items) || k == e.key
      ensures var s := old(View());
              && (s.stats.memoryBytes == SizeSum(s.list) ==> stats.memoryBytes == SizeSum(View().list))
              && View() == s.(list := s.list + [e], stats := s.stats.(memoryBytes := s.stats.memoryBytes + e.size))
    {
      hide Tied, Entries;
      var el := new Element(e);
      TiedAppend(lru, items, el);
      SizeSumConcat(Entries(lru), [e]);
      lru := lru + [el];
      items := items[e.key := el];
      stats := stats.(memoryBytes := stats.memoryBytes + e.size);
    }

    method LoadElements(entries: seq<SavedEntry>, now: int)
      requires Valid() && lru == [] && DistinctSaved(entries) && stats.memoryBytes == 0
      modifies this`lru, this`items, this`stats
      ensures Valid() && forall el :: el in lru ==> fresh(el)
      ensures var list := LoadEntries(entries, now);
              View() == old(View()).(list := list, stats := old(stats).(memoryBytes := SizeSum(list)))
    {
      hide Tied, Entries, Restored, SizeSum;
      assert entries[..0] == [];
      ghost var st := stats;
      EmptyItems(lru, items);
      for i := 0 to |entries|
        invariant Valid() && forall el :: el in lru ==> fresh(el)
        invariant Entries(lru) == LoadEntries(entries[..i], now)
        invariant forall j :: i <= j < |entries| ==> entries[j].key !in items
        invariant stats == st.(memoryBytes := SizeSum(Entries(lru)))
      {
        var e := Restored(entries[i], now);
        assert entries[..i + 1][..i] == entries[..i];
        if e.Some? {
          RestoredKey(entries[i], now);
          PushBack(e.value);
        }
      }
      assert entries[..|entries|] == entries;
    }

    method LoadNegativeEntries(ns: seq<NegativeEntry>, now: int)
      requires Valid() && negative == map[]
      modifies this`negative
      ensures Valid() && View() == old(View()).(negative := LoadNegatives(ns, now))
    {
      hide Tied, Entries;
      assert ns[..0] == [];
      for i := 0 to |ns|
        invariant negative == LoadNegatives(ns[..i], now)
      {
        assert ns[..i + 1][..i] == ns[..i];
        if now < ns[i].expiresAt {
          negative := negative[ns[i].key := ns[i]];
        }
      }
      assert ns[..|ns|] == ns;
    }

    method PersistNegatives() returns (ns: seq<NegativeEntry>)
      ensures forall n :: n in ns <==> n in negative.Values
    {
      ns := [];
      var rest := negative;
      while rest != map[]
        invariant rest.Keys <= negative.Keys && forall k :: k in rest ==> rest[k] == negative[k]
        invariant forall n :: n in ns ==> n in negative.Values
        invariant forall k :: k in negative && k !in rest ==> negative[k] in ns
        decreases |rest|
      {
        var k :| k in rest;
        ns := ns + [rest[k]];
        rest := rest - {k};
      }
    }

    /** Load, from the decoded file on. */
    method Load(snap: Snapshot, now: int)
      requires DistinctSaved(snap.entries)
      modifies this`lru, this`items, this`stats, this`negative
      ensures Valid() && forall el :: el in lru ==> fresh(el)
      ensures View() == Snapshots.Load(old(View()), snap, now)
    {
      hide Tied, Entries, Restored, Shrink;
      lru, items, negative := [], map[], map[];
      stats := stats.(memoryBytes := 0);
      TiedEmpty();
      LoadElements(snap.entries, now);
      LoadNegativeEntries(snap.negative, now);
      ghost var loaded := lru;
      ShrinkToLimit();
      assert forall el :: el in lru ==> el in loaded;
    }
  }

  lemma TiedAppend(lru: seq<Element>, items: map<Bytes, Element>, el: Element)
    requires Tied(lru, items) && el.entry.key !in items
    ensures Tied(lru + [el], items[el.entry.key := el])
    ensures Entries(lru + [el]) == Entries(lru) + [el.entry]
  {
    DistinctLast(lru, el);
    hide Distinct;
  }

  lemma DistinctLast<T>(s: seq<T>, x: T)
    requires Distinct(s) && x !in s
    ensures Distinct(s + [x])
  {
  }

  lemma EmptyItems(lru: seq<Element>, items: map<Bytes, Element>)
    requires Tied(lru, items) && lru == []
    ensures items == map[] && Entries(lru) == [] && SizeSum(Entries(lru)) == 0
  {
  }

  lemma TiedEmpty()
    ensures Tied([], map[]) && Entries([]) == []
  {
  }

  /** The entries of the elements filed under the keys of `done` have been saved, once each. */
  ghost predicate SavedAll(items: map<Bytes, Element>, done: set<Bytes>, entries: seq<SavedEntry>)
    reads items.Values
  {
    && DistinctSaved(entries)
    && (forall it :: it in entries ==> it.key in done && it.key in items && Saved(items[it.key].entry) == Some(it))
    && (forall k :: k in done && k in items && Saved(items[k].entry).Some? ==> Saved(items[k].entry).value in entries)
  }

  lemma SavedNone(items: map<Bytes, Element>)
    ensures SavedAll(items, {}, [])
  {
  }

  lemma SavedMore(items: map<Bytes, Element>, done: set<Bytes>, entries: seq<SavedEntry>, k: Bytes)
    requires SavedAll(items, done, entries) && k in items && k !in done && items[k].entry.key == k
    ensures var saved := Saved(items[k].entry);
            SavedAll(items, done + {k}, if saved.Some? then entries + [saved.value] else entries)
  {
    hide Saved;
    SavedKey(items[k].entry);
  }

  lemma SavedList(lru: seq<Element>, items: map<Bytes, Element>, entries: seq<SavedEntry>)
    requires Tied(lru, items) && SavedAll(items, items.Keys, entries)
    ensures DistinctSaved(entries)
    ensures forall e :: e in Entries(lru) && Saved(e).Some? ==> Saved(e).value in entries
    ensures forall it :: it in entries ==> exists e :: e in Entries(lru) && Saved(e) == Some(it)
  {
    hide Saved;
    var list := Entries(lru);
    forall e | e in list && Saved(e).Some?
      ensures Saved(e).value in entries
    {
      var i :| 0 <= i < |list| && list[i] == e;
      assert lru[i] in lru && items[e.key] == lru[i];
    }
    forall it | it in entries
      ensures exists e :: e in list && Saved(e) == Some(it)
    {
      var el := items[it.key];
      assert list[IndexOf(lru, el)] == el.entry;
    }
  }

  lemma RemoveKeepsNegative(s: State, i: nat)
    ensures i < |s.list| ==> Remove(s, i).negative == s.negative
  {
  }

  lemma DistinctAt<T>(s: seq<T>, i: nat)
    requires Distinct(s) && i < |s|
    ensures forall j :: 0 <= j < |s| && j != i ==> s[j] != s[i]
  {
  }

  lemma NewEntryKey(cfg: Config, key: Bytes, value: Message, ttl: int, now: int)
    ensures NewEntry(cfg, key, value, ttl, now).key == key
  {
  }

  lemma TiedKey(lru: seq<Element>, items: map<Bytes, Element>, key: Bytes)
    requires Tied(lru, items) && key in items
    ensures items[key] in lru && items[key].entry.key == key
  {
  }

  lemma TiedInsert(lru: seq<Element>, items: map<Bytes, Element>, el: Element)
    requires Tied(lru, items) && el.entry.key !in items
    ensures Tied([el] + lru, items[el.entry.key := el])
    ensures Entries([el] + lru) == [el.entry] + Entries(lru)
    ensures |Entries(lru)| == |lru|
  {
    hide Entries;
    EntriesOfFront(el, lru);
    DistinctFirst(el, lru);
    hide Distinct;
  }

  lemma GetAbsent(s: State, key: Bytes, now: int)
    requires !Resident(s.list, key)
    ensures CacheSpec.Get(s, key, now) == (s.(stats := s.stats.(misses := s.stats.misses + 1)), MISS)
  {
  }

  /** The entry found, with its hit counted. */
  function Found(s: State, key: Bytes): Entry
    requires Resident(s.list, key)
  {
    var e := s.list[Find(s.list, key)];
    e.(hits := e.hits + 1)
  }

  /** `t` is `s` with the found entry at the front, changed to `e`. */
  ghost predicate Moved(s: State, key: Bytes, e: Entry, t: State)
    requires Resident(s.list, key)
  {
    t == s.(list := ToFront(s.list, Find(s.list, key), e), stats := t.stats)
  }

  lemma GetFresh(s: State, key: Bytes, now: int, t: State)
    requires Resident(s.list, key) && now < Found(s, key).expiresAt
    requires var e, start := Found(s, key), WantsPrefetch(s, Found(s, key), now);
             && Moved(s, key, e.(refreshing := e.refreshing || start), t)
             && t.stats == s.stats.(hits := s.stats.hits + 1, prefetches := s.stats.prefetches + (if start then 1 else 0))
    ensures CacheSpec.Get(s, key, now) == (t, GetResult(Some(Clone(Found(s, key).value)), true, false))
  {
    hide Clone;
  }

  lemma GetStale(s: State, key: Bytes, now: int, t: State)
    requires Resident(s.list, key) && Found(s, key).expiresAt <= now < Found(s, key).staleUntil
    requires var e, start := Found(s, key), WantsPrefetch(s, Found(s, key), now);
             && Moved(s, key, e.(refreshing := e.refreshing || start, expired := true), t)
             && t.stats == s.stats.(hits := s.stats.hits + 1, staleHits := s.stats.staleHits + 1,
                                    expirations := s.stats.expirations + (if e.expired then 0 else 1),
                                    prefetches := s.stats.prefetches + (if start then 1 else 0))
    ensures CacheSpec.Get(s, key, now) == (t, GetResult(Some(Clone(Found(s, key).value)), true, true))
  {
    hide Clone;
  }

  lemma GetLate(s: State, key: Bytes, now: int, t: State)
    requires Resident(s.list, key) && now >= Found(s, key).expiresAt && now >= Found(s, key).staleUntil
    requires var e := Found(s, key);
             && Moved(s, key, e.(expired := true), t)
             && t.stats == s.stats.(expirations := s.stats.expirations + (if e.expired then 0 else 1))
    ensures t.list != [] && t.list[0] == Found(s, key).(expired := true)
    ensures var u := if Servable(s.cfg, Found(s, key), now) then t else Remove(t, 0);
            CacheSpec.Get(s, key, now) == (u.(stats := u.stats.(misses := u.stats.misses + 1)), MISS)
  {
    hide Clone;
  }

  /** Changing an entry, moving it to the front and changing it again. */
  lemma FrontOfUpdated(list: seq<Entry>, i: nat, e: Entry, f: Entry)
    requires i < |list|
    ensures ToFront(list[i := e], i, e) == ToFront(list, i, e)
    ensures ToFront(list, i, e)[0 := f] == ToFront(list, i, f)
  {
  }

  lemma LastIndex(lru: seq<Element>, items: map<Bytes, Element>)
    requires Tied(lru, items) && lru != []
    ensures IndexOf(lru, lru[|lru| - 1]) == |lru| - 1
    ensures Without(lru, |lru| - 1) <= lru
  {
  }
}
