/**
 The cache as a state machine (internal/cache/cache.go, stale.go, negative.go): one pure step
 for each operation, and what holds after every run of operations. Times are nanoseconds on
 one clock, given with each call; 0 is Go's zero time.
 */
module CacheSpec {
  import opened Octets
  import opened Durations
  import opened Records
  import opened MessageWire
  import opened Reencoding

  const ZERO_TIME := 0
  const TWO_64 := 0x1_0000_0000_0000_0000

  /** cloneMessage: through the wire and back, or the message itself when that fails. */
  function Clone(m: Message): Message {
    match Encode(m)
    case Err => m
    case Ok(wire) => match Decode(wire) case Ok(c) => c case Err => m
  }

  /** messageSizeEstimate. */
  function MessageSize(m: Message): nat {
    match Encode(m) case Ok(wire) => |wire| case Err => 0
  }

  /** `c` is a faithful copy of `m`: the same up to name case, or `m` itself when `m` does not encode. */
  ghost predicate CopyOf(m: Message, c: Message) {
    if Encode(m).Ok? then SameMessage(m, c, false) else c == m
  }

  /** Copies are faithful, and so are copies of copies; the copy of a fitting message is as large as the message. */
  lemma CloneFaithful(m: Message)
    ensures CopyOf(m, Clone(m)) && CopyOf(m, Clone(Clone(m)))
    ensures Encode(m).Ok? && MessageFits(m) ==> MessageSize(Clone(m)) == MessageSize(m)
  {
    hide Encode, Decode, SameMessage, MessageFits;
    if Encode(m).Ok? {
      RoundTrip(m, false);
      var c := Clone(m);
      if Encode(c).Ok? {
        RoundTrip(c, false);
        SameMessageTwice(m, c, Clone(c));
      }
      if MessageFits(m) {
        EncodeAlike(m, c);
      }
    }
  }

  datatype Entry = Entry(key: Bytes, value: Message, expiresAt: int, staleUntil: int, lastGood: Option<Message>,
                         lastGoodAt: int, hits: int, originalTTL: int, refreshing: bool, expired: bool, size: nat)

  datatype NegativeEntry = NegativeEntry(key: Bytes, rcode: byte, expiresAt: int, soa: Bytes)

  datatype Config = Config(maxEntries: int, minTTL: int, maxTTL: int, staleWindow: int, staleMaxAge: int)

  datatype ConfigUpdate = ConfigUpdate(maxEntries: Option<int>, minTTL: Option<int>, maxTTL: Option<int>,
                                       staleWindow: Option<int>, staleMaxAge: Option<int>)

  datatype Stats = Stats(hits: nat, misses: nat, staleHits: nat, evictions: nat, expirations: nat, prefetches: nat,
                         memoryBytes: nat)

  /** `list` is the recency list, most recent first; `prefetch` says whether a callback is set. */
  datatype State = State(cfg: Config, list: seq<Entry>, negative: map<Bytes, NegativeEntry>, stats: Stats, prefetch: bool)

  datatype GetResult = GetResult(message: Option<Message>, hit: bool, stale: bool)

  const MISS := GetResult(None, false, false)

  // ---- construction ----

  /** The defaults New fills in. */
  function NewConfig(o: Config): Config {
    var maxEntries := if o.maxEntries <= 0 then 10000 else o.maxEntries;
    var minTTL := if o.minTTL <= 0 then 30 * SECOND else o.minTTL;
    var maxTTL := if o.maxTTL < minTTL then 24 * HOUR else o.maxTTL;
    var window := if o.staleWindow < 0 then 5 * MINUTE else o.staleWindow;
    var maxAge := if o.staleMaxAge < window then HOUR else o.staleMaxAge;
    Config(maxEntries, minTTL, maxTTL, window, maxAge)
  }

  /** The defaults, and that New can leave the upper limit below the lower: only a minimum over a day does. */
  lemma NewConfigIs(o: Config)
    ensures var c := NewConfig(o);
            && c.maxEntries == (if o.maxEntries >= 1 then o.maxEntries else 10_000)
            && c.minTTL == (if o.minTTL >= 1 then o.minTTL else 30_000_000_000)
            && c.maxTTL == (if o.maxTTL >= c.minTTL then o.maxTTL else 86_400_000_000_000)
            && c.staleWindow == (if o.staleWindow >= 0 then o.staleWindow else 300_000_000_000)
            && c.staleMaxAge == (if o.staleMaxAge >= c.staleWindow then o.staleMaxAge else 3_600_000_000_000)
            && (c.maxTTL < c.minTTL <==> o.maxTTL < o.minTTL && o.minTTL > 86_400_000_000_000)
  {
  }

  function NewState(o: Config, prefetch: bool): State {
    State(NewConfig(o), [], map[], Stats(0, 0, 0, 0, 0, 0, 0), prefetch)
  }

  // ---- the recency list ----

  /** The position of the entry for `key`, or |list| when there is none. */
  function Find(list: seq<Entry>, key: Bytes): (i: nat)
    ensures i <= |list|
    ensures i < |list| ==> list[i].key == key
    ensures forall j :: 0 <= j < i ==> list[j].key != key
  {
    if list == [] || list[0].key == key then 0 else 1 + Find(list[1..], key)
  }

  predicate Resident(list: seq<Entry>, key: Bytes) {
    Find(list, key) < |list|
  }

  function RemoveAt(list: seq<Entry>, i: nat): seq<Entry>
    requires i < |list|
  {
    list[..i] + list[i + 1..]
  }

  /** The entry at `i`, changed to `e`, moves to the front. */
  function ToFront(list: seq<Entry>, i: nat, e: Entry): seq<Entry>
    requires i < |list|
  {
    [e] + RemoveAt(list, i)
  }

  /** uint64 subtraction. */
  function Minus64(a: nat, b: nat): nat {
    if a >= b then a - b else (a - b) % TWO_64
  }

  /** removeElementLocked. */
  function Remove(s: State, i: nat): State
    requires i < |s.list|
  {
    var size := s.list[i].size;
    var left := if s.stats.memoryBytes >= size then s.stats.memoryBytes - size else 0;
    s.(list := RemoveAt(s.list, i), stats := s.stats.(memoryBytes := left))
  }

  /** evictOldestLocked. */
  function Evict(s: State): State {
    if s.list == [] then s
    else
      var t := Remove(s, |s.list| - 1);
      t.(stats := t.stats.(evictions := t.stats.evictions + 1))
  }

  /** The eviction loops: while the list is over its limit. */
  function Shrink(s: State): State
    decreases |s.list|
  {
    if s.list != [] && |s.list| > s.cfg.maxEntries then Shrink(Evict(s)) else s
  }

  // ---- operations ----

  function ClampTTL(cfg: Config, ttl: int): int {
    if ttl < cfg.minTTL then cfg.minTTL else if ttl > cfg.maxTTL then cfg.maxTTL else ttl
  }

  /**
   `life` is what a TTL comes to under the limits: the lower limit for all below it, the upper
   for all above it, and itself in between. Limits the wrong way round leave only the two of them.
   */
  ghost predicate Clamped(cfg: Config, ttl: int, life: int) {
    && (ttl < cfg.minTTL ==> life == cfg.minTTL)
    && (ttl >= cfg.minTTL && ttl > cfg.maxTTL ==> life == cfg.maxTTL)
    && (cfg.minTTL <= ttl <= cfg.maxTTL ==> life == ttl)
  }

  lemma ClampExactly(cfg: Config, ttl: int)
    ensures forall life :: Clamped(cfg, ttl, life) <==> life == ClampTTL(cfg, ttl)
    ensures cfg.minTTL <= cfg.maxTTL ==> cfg.minTTL <= ClampTTL(cfg, ttl) <= cfg.maxTTL
  {
  }

  function NewEntry(cfg: Config, key: Bytes, value: Message, ttl: int, now: int): Entry {
    var t := ClampTTL(cfg, ttl);
    var v := Clone(value);
    Entry(key, v, now + t, now + t + cfg.staleWindow, Some(Clone(value)), now, 0, t, false, false, |key| + MessageSize(v))
  }

  function Set(s: State, key: Bytes, value: Option<Message>, ttl: int, now: int): State {
    if value.None? || key == [] then s
    else
      var item := NewEntry(s.cfg, key, value.value, ttl, now);
      var i := Find(s.list, key);
      if i < |s.list| then
        var memory := Minus64(s.stats.memoryBytes, s.list[i].size) + item.size;
        s.(list := ToFront(s.list, i, item), stats := s.stats.(memoryBytes := memory))
      else
        var t := s.(list := [item] + s.list, stats := s.stats.(memoryBytes := s.stats.memoryBytes + item.size));
        if |t.list| > t.cfg.maxEntries then Evict(t) else t
  }

  /** The guard of maybePrefetchLocked. */
  predicate WantsPrefetch(s: State, e: Entry, now: int) {
    s.prefetch && !e.refreshing && e.hits >= 3 && e.originalTTL > 0 && e.expiresAt - now <= e.originalTTL / 10
  }

  /** A hit: count it, and mark the entry when a prefetch starts. */
  function Hit(s: State, e: Entry, i: nat, now: int, stale: bool): State
    requires i < |s.list|
  {
    var start := WantsPrefetch(s, e, now);
    var st := s.stats.(hits := s.stats.hits + 1,
                       staleHits := s.stats.staleHits + (if stale then 1 else 0),
                       expirations := s.stats.expirations + (if stale && !e.expired then 1 else 0),
                       prefetches := s.stats.prefetches + (if start then 1 else 0));
    s.(list := ToFront(s.list, i, e.(refreshing := e.refreshing || start, expired := e.expired || stale)), stats := st)
  }

  /** Whether the last good answer may still be served when resolution fails. */
  predicate Servable(cfg: Config, e: Entry, now: int) {
    e.lastGood.Some? && e.lastGoodAt != ZERO_TIME && now - e.lastGoodAt <= cfg.staleMaxAge
  }

  function Get(s: State, key: Bytes, now: int): (State, GetResult) {
    var i := Find(s.list, key);
    if i == |s.list| then (s.(stats := s.stats.(misses := s.stats.misses + 1)), MISS)
    else
      var e := s.list[i].(hits := s.list[i].hits + 1);
      if now < e.expiresAt then
        (Hit(s, e, i, now, false), GetResult(Some(Clone(e.value)), true, false))
      else if now < e.staleUntil then
        (Hit(s, e, i, now, true), GetResult(Some(Clone(e.value)), true, true))
      else
        var st := s.stats.(misses := s.stats.misses + 1, expirations := s.stats.expirations + (if e.expired then 0 else 1));
        var t := s.(list := ToFront(s.list, i, e.(expired := true)), stats := st);
        (if Servable(s.cfg, e, now) then t else Remove(t, 0), MISS)
  }

  /** The end of a prefetch: the callback returned. */
  function PrefetchDone(s: State, key: Bytes): State {
    var i := Find(s.list, key);
    if i == |s.list| then s else s.(list := s.list[i := s.list[i].(refreshing := false)])
  }

  function Delete(s: State, key: Bytes): State {
    var i := Find(s.list, key);
    var t := if i < |s.list| then Remove(s, i) else s;
    t.(negative := t.negative - {key})
  }

  function Flush(s: State): State {
    s.(list := [], negative := map[], stats := s.stats.(memoryBytes := 0))
  }

  function GetStaleOnError(s: State, key: Bytes, now: int): (State, Option<Message>) {
    var i := Find(s.list, key);
    if i == |s.list| then (s, None)
    else
      var e := s.list[i];
      if e.lastGood.None? || e.lastGoodAt == ZERO_TIME then (s, None)
      else if now - e.lastGoodAt > s.cfg.staleMaxAge then (Remove(s, i), None)
      else (s, Some(Clone(e.lastGood.value)))
  }

  function Resize(s: State, n: Option<int>): State {
    if n.Some? && n.value > 0 then Shrink(s.(cfg := s.cfg.(maxEntries := n.value))) else s
  }

  function Retime(c: Config, u: ConfigUpdate): Config {
    var minTTL := if u.minTTL.Some? && u.minTTL.value > 0 then u.minTTL.value else c.minTTL;
    var maxTTL := if u.maxTTL.Some? && u.maxTTL.value > 0 then u.maxTTL.value else c.maxTTL;
    var window := if u.staleWindow.Some? && u.staleWindow.value >= 0 then u.staleWindow.value else c.staleWindow;
    var maxAge := if u.staleMaxAge.Some? && u.staleMaxAge.value >= 0 then u.staleMaxAge.value else c.staleMaxAge;
    Config(c.maxEntries, minTTL, if maxTTL < minTTL then minTTL else maxTTL, window, if maxAge < window then window else maxAge)
  }

  /** The setting after an update: the new value when one is given that is large enough, raised to a floor. */
  predicate Updated(r: int, was: int, given: Option<int>, least: int, floor: int) {
    var chosen := if given.Some? && given.value >= least then given.value else was;
    r >= floor && r >= chosen && (r == chosen || r == floor)
  }

  /**
   What an update changes: a lifetime that is given and positive, a stale time that is given and
   not negative, and nothing else, except that the upper limit is raised to the lower and the
   age to the window when they would be below.
   */
  lemma RetimeIs(c: Config, u: ConfigUpdate)
    ensures var r := Retime(c, u);
            && r.maxEntries == c.maxEntries
            && r.minTTL == (if u.minTTL.Some? && u.minTTL.value >= 1 then u.minTTL.value else c.minTTL)
            && Updated(r.maxTTL, c.maxTTL, u.maxTTL, 1, r.minTTL)
            && r.staleWindow == (if u.staleWindow.Some? && u.staleWindow.value >= 0 then u.staleWindow.value else c.staleWindow)
            && Updated(r.staleMaxAge, c.staleMaxAge, u.staleMaxAge, 0, r.staleWindow)
            && r.minTTL <= r.maxTTL && r.staleWindow <= r.staleMaxAge
    ensures u == ConfigUpdate(u.maxEntries, None, None, None, None) && c.minTTL <= c.maxTTL && c.staleWindow <= c.staleMaxAge ==>
              Retime(c, u) == c
    ensures Retime(Retime(c, u), u) == Retime(c, u)
  {
  }

  function ApplyConfig(s: State, u: ConfigUpdate): State {
    var t := Resize(s, u.maxEntries);
    t.(cfg := Retime(t.cfg, u))
  }

  function SetNegative(s: State, key: Bytes, rcode: byte, ttl: int, soa: Bytes, now: int): State {
    s.(negative := s.negative[key := NegativeEntry(key, rcode, now + ClampTTL(s.cfg, ttl), soa)])
  }

  function GetNegative(s: State, key: Bytes, now: int): (State, Option<NegativeEntry>) {
    if key !in s.negative then (s.(stats := s.stats.(misses := s.stats.misses + 1)), None)
    else if now > s.negative[key].expiresAt then
      (s.(negative := s.negative - {key},
          stats := s.stats.(expirations := s.stats.expirations + 1, misses := s.stats.misses + 1)), None)
    else (s.(stats := s.stats.(hits := s.stats.hits + 1)), Some(s.negative[key]))
  }

  // ---- the invariant ----

  ghost predicate DistinctKeys(list: seq<Entry>) {
    forall i, j :: 0 <= i < j < |list| ==> list[i].key != list[j].key
  }

  function SizeSum(list: seq<Entry>): nat {
    if list == [] then 0 else list[0].size + SizeSum(list[1..])
  }

  ghost predicate ConfigOk(c: Config) {
    c.maxEntries >= 1 && c.minTTL >= 1 && c.maxTTL >= 1 && c.staleWindow >= 0 && c.staleMaxAge >= 0
  }

  /** Keys once each, within the limit, and the byte count is the sum of the resident sizes. */
  ghost predicate Inv(s: State) {
    && ConfigOk(s.cfg)
    && DistinctKeys(s.list)
    && |s.list| <= s.cfg.maxEntries
    && s.stats.memoryBytes == SizeSum(s.list)
    && s.stats.staleHits <= s.stats.hits
  }

  lemma {:induction false} SizeSumConcat(a: seq<Entry>, b: seq<Entry>)
    ensures SizeSum(a + b) == SizeSum(a) + SizeSum(b)
  {
    if a == [] {
      assert a + b == b;
    } else {
      assert (a + b)[1..] == a[1..] + b;
      SizeSumConcat(a[1..], b);
    }
  }

  lemma SizeSumRemove(list: seq<Entry>, i: nat)
    requires i < |list|
    ensures SizeSum(RemoveAt(list, i)) == SizeSum(list) - list[i].size
  {
    SizeSumConcat(list[..i], list[i + 1..]);
    assert list == list[..i] + ([list[i]] + list[i + 1..]);
    SizeSumConcat(list[..i], [list[i]] + list[i + 1..]);
  }

  lemma SizeSumFront(list: seq<Entry>, i: nat, e: Entry)
    requires i < |list|
    ensures SizeSum(ToFront(list, i, e)) == SizeSum(list) - list[i].size + e.size
  {
    SizeSumRemove(list, i);
    assert ToFront(list, i, e)[1..] == RemoveAt(list, i);
  }

  /** Replacing an entry by one of the same key at the front keeps keys distinct. */
  lemma DistinctFront(list: seq<Entry>, i: nat, e: Entry)
    requires i < |list| && DistinctKeys(list) && e.key == list[i].key
    ensures DistinctKeys(ToFront(list, i, e)) && DistinctKeys(RemoveAt(list, i))
  {
  }

  lemma RemoveInv(s: State, i: nat)
    requires i < |s.list| && DistinctKeys(s.list) && s.stats.memoryBytes == SizeSum(s.list)
    ensures var t := Remove(s, i); DistinctKeys(t.list) && t.stats.memoryBytes == SizeSum(t.list)
  {
    SizeSumRemove(s.list, i);
    DistinctFront(s.list, i, s.list[i]);
  }

  /** Shrinking drops exactly the tail, counts each drop, and keeps the byte count exact. */
  lemma {:induction false} ShrinkDropsTail(s: State)
    requires DistinctKeys(s.list) && s.stats.memoryBytes == SizeSum(s.list) && s.cfg.maxEntries >= 0
    ensures var n := if |s.list| > s.cfg.maxEntries then s.cfg.maxEntries else |s.list|;
            var t := Shrink(s);
            && t.list == s.list[..n] && t.stats.memoryBytes == SizeSum(t.list) && DistinctKeys(t.list)
            && t == s.(list := t.list, stats := t.stats)
            && t.stats == s.stats.(memoryBytes := t.stats.memoryBytes, evictions := s.stats.evictions + |s.list| - n)
    decreases |s.list|
  {
    if s.list != [] && |s.list| > s.cfg.maxEntries {
      var last := |s.list| - 1;
      RemoveInv(s, last);
      assert RemoveAt(s.list, last) == s.list[..last];
      ShrinkDropsTail(Evict(s));
    }
  }

  lemma EvictOne(s: State)
    requires s.list != []
    requires DistinctKeys(s.list) && s.stats.memoryBytes == SizeSum(s.list)
    ensures var t := Evict(s);
            && t.list == s.list[..|s.list| - 1] && t.stats.memoryBytes == SizeSum(t.list) && DistinctKeys(t.list)
            && t.cfg == s.cfg && t.stats.hits == s.stats.hits && t.stats.staleHits == s.stats.staleHits
  {
    RemoveInv(s, |s.list| - 1);
    assert RemoveAt(s.list, |s.list| - 1) == s.list[..|s.list| - 1];
  }
}
