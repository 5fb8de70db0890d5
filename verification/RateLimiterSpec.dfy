/**
 The token buckets of internal/security/ratelimit.go. Times are nanoseconds; tokens are reals,
 so the rounding of float64 is not modelled. `collect` tells the limiter from one that never
 drops idle buckets.
 */
module RateLimiterSpec {
  import opened Octets
  import opened Durations

  datatype Bucket = Bucket(tokens: real, lastSeen: int, drops: nat)

  datatype Limiter = Limiter(buckets: map<Bytes, Bucket>, rate: real, burst: real, lastGC: int)

  function New(rate: real, burst: int, now: int): Limiter {
    Limiter(map[], if rate <= 0.0 then 100.0 else rate, if burst <= 0 then 200.0 else burst as real, now)
  }

  /** The tokens a rate yields between two instants. */
  function Earned(rate: real, from: int, to: int): real {
    (to - from) as real / SECOND as real * rate
  }

  function Collected(m: map<Bytes, Bucket>, now: int): map<Bytes, Bucket> {
    map k | k in m && !(now - m[k].lastSeen > MAX_IDLE) :: m[k]
  }

  function Sweep(r: Limiter, now: int): Limiter {
    if now - r.lastGC >= GC_INTERVAL then r.(buckets := Collected(r.buckets, now), lastGC := now) else r
  }

  /** The bucket's tokens at a later instant. */
  function Refilled(r: Limiter, b: Bucket, now: int): real {
    var t := b.tokens + Earned(r.rate, b.lastSeen, now);
    if t > r.burst then r.burst else t
  }

  function Take(r: Limiter, ip: Bytes, now: int): (Limiter, bool) {
    if ip !in r.buckets then (r.(buckets := r.buckets[ip := Bucket(r.burst - 1.0, now, 0)]), true)
    else
      var b := r.buckets[ip];
      var t := Refilled(r, b, now);
      if t < 1.0 then (r.(buckets := r.buckets[ip := Bucket(t, now, b.drops + 1)]), false)
      else (r.(buckets := r.buckets[ip := Bucket(t - 1.0, now, b.drops)]), true)
  }

  function Allow(r: Limiter, ip: Bytes, now: int): (Limiter, bool) {
    Take(Sweep(r, now), ip, now)
  }

  function Update(r: Limiter, rate: real, burst: int): Limiter {
    r.(rate := if rate > 0.0 then rate else r.rate, burst := if burst > 0 then burst as real else r.burst)
  }

  // ---- runs ----

  datatype Call = Call(ip: Bytes, now: int)

  ghost predicate Monotone(start: int, calls: seq<Call>) {
    && (forall i :: 0 <= i < |calls| ==> start <= calls[i].now)
    && (forall i, j :: 0 <= i < j < |calls| ==> calls[i].now <= calls[j].now)
  }

  function Step(r: Limiter, c: Call, collect: bool): (Limiter, bool) {
    if collect then Allow(r, c.ip, c.now) else Take(r, c.ip, c.now)
  }

  function Run(r: Limiter, calls: seq<Call>, collect: bool): Limiter {
    if calls == [] then r else Step(Run(r, calls[..|calls| - 1], collect), calls[|calls| - 1], collect).0
  }

  function Decisions(r: Limiter, calls: seq<Call>, collect: bool): (d: seq<bool>)
    ensures |d| == |calls|
  {
    if calls == [] then []
    else
      var n := |calls| - 1;
      Decisions(r, calls[..n], collect) + [Step(Run(r, calls[..n], collect), calls[n], collect).1]
  }

  /** How many of the calls for `ip` were let through. */
  function Admitted(calls: seq<Call>, decisions: seq<bool>, ip: Bytes): nat
    requires |decisions| == |calls|
  {
    if calls == [] then 0
    else
      var n := |calls| - 1;
      Admitted(calls[..n], decisions[..n], ip) + (if calls[n].ip == ip && decisions[n] then 1 else 0)
  }

  // ---- the tokens an address has ----

  ghost predicate Inv(r: Limiter, now: int) {
    && r.rate > 0.0 && r.burst >= 1.0
    && forall k :: k in r.buckets ==> 0.0 <= r.buckets[k].tokens <= r.burst && r.buckets[k].lastSeen <= now
  }

  /** What `ip` could spend at `now`: an address without a bucket has the whole burst. */
  function Level(r: Limiter, ip: Bytes, now: int): real {
    if ip in r.buckets then Refilled(r, r.buckets[ip], now) else r.burst
  }

  lemma EarnedSplit(rate: real, a: int, b: int, c: int)
    ensures Earned(rate, a, c) == Earned(rate, a, b) + Earned(rate, b, c)
  {
    var s := SECOND as real;
    var x, y := (b - a) as real / s, (c - b) as real / s;
    assert (c - a) as real / s == x + y;
    assert (x + y) * rate == x * rate + y * rate;
  }

  lemma EarnedGrows(rate: real, a: int, b: int)
    requires rate > 0.0 && a <= b
    ensures Earned(rate, a, b) >= 0.0
  {
  }

  lemma LevelLater(r: Limiter, ip: Bytes, t: int, u: int)
    requires Inv(r, t) && t <= u
    ensures 0.0 <= Level(r, ip, t) <= r.burst
    ensures Inv(r, u)
    ensures var l := Level(r, ip, t) + Earned(r.rate, t, u); Level(r, ip, u) == if l > r.burst then r.burst else l
  {
    hide Earned;
    EarnedGrows(r.rate, t, u);
    if ip in r.buckets {
      EarnedSplit(r.rate, r.buckets[ip].lastSeen, t, u);
      EarnedGrows(r.rate, r.buckets[ip].lastSeen, t);
    }
  }

  /** A bucket is full after the shortest idle time that gets it collected. */
  predicate RefillsInTime(rate: real, burst: real) {
    burst <= Earned(rate, 0, MAX_IDLE + 1)
  }

  lemma SweepKeepsLevels(r: Limiter, now: int, ip: Bytes)
    requires Inv(r, now)
    ensures Inv(Sweep(r, now), now)
    ensures Level(Sweep(r, now), ip, now) >= Level(r, ip, now)
    ensures RefillsInTime(r.rate, r.burst) ==> Level(Sweep(r, now), ip, now) == Level(r, ip, now)
  {
    LevelLater(r, ip, now, now);
    if ip in r.buckets && now - r.buckets[ip].lastSeen > MAX_IDLE {
      var b := r.buckets[ip];
      var full := b.lastSeen + MAX_IDLE + 1;
      assert Earned(r.rate, b.lastSeen, full) == Earned(r.rate, 0, MAX_IDLE + 1);
      EarnedSplit(r.rate, b.lastSeen, full, now);
      EarnedGrows(r.rate, full, now);
    }
  }

  /** One call: it is admitted exactly when a whole token is there, and spends it. */
  lemma StepLevel(r: Limiter, c: Call, collect: bool, ip: Bytes)
    requires Inv(r, c.now)
    ensures var (t, ok) := Step(r, c, collect);
            && Inv(t, c.now) && t.rate == r.rate && t.burst == r.burst
            && (Level(r, c.ip, c.now) >= 1.0 ==> ok)
            && Level(t, ip, c.now) >= Level(r, ip, c.now) - (if c.ip == ip && ok then 1.0 else 0.0)
            && (!collect || RefillsInTime(r.rate, r.burst) ==>
                  && ok == (Level(r, c.ip, c.now) >= 1.0)
                  && Level(t, ip, c.now) == Level(r, ip, c.now) - (if c.ip == ip && ok then 1.0 else 0.0))
  {
    hide Earned, Inv, RefillsInTime;
    var s := if collect then Sweep(r, c.now) else r;
    if collect {
      SweepKeepsLevels(r, c.now, ip);
      SweepKeepsLevels(r, c.now, c.ip);
    }
    TakeLevel(s, c.ip, c.now, ip);
  }

  lemma TakeLevel(r: Limiter, who: Bytes, now: int, ip: Bytes)
    requires Inv(r, now)
    ensures var (t, ok) := Take(r, who, now);
            && Inv(t, now) && t.rate == r.rate && t.burst == r.burst
            && ok == (Level(r, who, now) >= 1.0)
            && Level(t, ip, now) == Level(r, ip, now) - (if who == ip && ok then 1.0 else 0.0)
  {
    LevelLater(r, who, now, now);
  }

  // ---- the bound ----

  lemma {:induction false} RunBound(r: Limiter, calls: seq<Call>, collect: bool, ip: Bytes, start: int)
    requires Inv(r, start) && Monotone(start, calls)
    requires collect ==> RefillsInTime(r.rate, r.burst)
    ensures var end := if calls == [] then start else calls[|calls| - 1].now;
            var t := Run(r, calls, collect);
            && Inv(t, end) && t.rate == r.rate && t.burst == r.burst
            && Admitted(calls, Decisions(r, calls, collect), ip) as real
               <= Level(r, ip, start) - Level(t, ip, end) + Earned(r.rate, start, end)
  {
    hide Step, Inv, Level, Earned, RefillsInTime;
    if calls == [] {
      assert Earned(r.rate, start, start) == 0.0 by { EarnedSplit(r.rate, start, start, start); }
    } else {
      var n := |calls| - 1;
      var c := calls[n];
      var mid := if n == 0 then start else calls[n - 1].now;
      RunBound(r, calls[..n], collect, ip, start);
      var s := Run(r, calls[..n], collect);
      LevelLater(s, ip, mid, c.now);
      StepLevel(s, c, collect, ip);
      EarnedSplit(r.rate, start, mid, c.now);
      assert Decisions(r, calls, collect)[..n] == Decisions(r, calls[..n], collect);
    }
  }

  /** Whatever came before, calls between t1 and t2 admit at most burst + rate * (t2 - t1) for an address. */
  lemma AdmittedBound(r: Limiter, calls: seq<Call>, collect: bool, ip: Bytes)
    requires calls != [] && Inv(r, calls[0].now) && Monotone(calls[0].now, calls)
    requires collect ==> RefillsInTime(r.rate, r.burst)
    ensures Admitted(calls, Decisions(r, calls, collect), ip) as real
            <= r.burst + Earned(r.rate, calls[0].now, calls[|calls| - 1].now)
  {
    hide Decisions, Run, Admitted, Earned, Step, RefillsInTime;
    var t1, t2 := calls[0].now, calls[|calls| - 1].now;
    RunBound(r, calls, collect, ip, t1);
    LevelLater(r, ip, t1, t1);
    LevelLater(Run(r, calls, collect), ip, t2, t2);
  }

  // ---- collecting idle buckets ----

  ghost predicate SameLevels(a: Limiter, b: Limiter, now: int) {
    && Inv(a, now) && Inv(b, now) && a.rate == b.rate && a.burst == b.burst
    && forall ip :: Level(a, ip, now) == Level(b, ip, now)
  }

  lemma StepSameLevels(a: Limiter, b: Limiter, before: int, c: Call)
    requires SameLevels(a, b, before) && before <= c.now && RefillsInTime(a.rate, a.burst)
    ensures SameLevels(Step(a, c, true).0, Step(b, c, false).0, c.now)
    ensures Step(a, c, true).1 == Step(b, c, false).1
  {
    hide Step, Inv, Level, Earned, RefillsInTime;
    var s, t := Step(a, c, true).0, Step(b, c, false).0;
    LevelLater(a, c.ip, before, c.now);
    LevelLater(b, c.ip, before, c.now);
    StepLevel(a, c, true, c.ip);
    StepLevel(b, c, false, c.ip);
    forall ip: Bytes
      ensures Level(s, ip, c.now) == Level(t, ip, c.now)
    {
      LevelLater(a, ip, before, c.now);
      LevelLater(b, ip, before, c.now);
      StepLevel(a, c, true, ip);
      StepLevel(b, c, false, ip);
    }
  }

  lemma {:induction false} RunSameLevels(r: Limiter, calls: seq<Call>, start: int)
    requires Inv(r, start) && Monotone(start, calls) && RefillsInTime(r.rate, r.burst)
    ensures var end := if calls == [] then start else calls[|calls| - 1].now;
            SameLevels(Run(r, calls, true), Run(r, calls, false), end)
    ensures Run(r, calls, true).rate == r.rate && Run(r, calls, true).burst == r.burst
    ensures Decisions(r, calls, true) == Decisions(r, calls, false)
  {
    hide Step, Inv, Level, Earned, RefillsInTime, SameLevels;
    if calls == [] {
      assert SameLevels(r, r, start) by { SameAsItself(r, start); }
    } else {
      var n := |calls| - 1;
      var mid := if n == 0 then start else calls[n - 1].now;
      RunSameLevels(r, calls[..n], start);
      var a, b := Run(r, calls[..n], true), Run(r, calls[..n], false);
      StepSameLevels(a, b, mid, calls[n]);
      StepParameters(a, calls[n], true);
    }
  }

  lemma SameAsItself(r: Limiter, now: int)
    requires Inv(r, now)
    ensures SameLevels(r, r, now)
  {
  }

  lemma StepParameters(r: Limiter, c: Call, collect: bool)
    ensures Step(r, c, collect).0.rate == r.rate && Step(r, c, collect).0.burst == r.burst
  {
  }

  // ---- when the bucket does not refill in time ----

  function Repeat(c: Call, n: nat): seq<Call> {
    seq(n, i => c)
  }

  /** An address spends all it has at one instant. */
  lemma {:induction false} SpendAll(r: Limiter, c: Call, n: nat, collect: bool)
    requires Inv(r, c.now) && Level(r, c.ip, c.now) >= n as real
    ensures var calls := Repeat(c, n);
            var t := Run(r, calls, collect);
            && Inv(t, c.now) && t.rate == r.rate && t.burst == r.burst
            && Level(t, c.ip, c.now) >= Level(r, c.ip, c.now) - n as real
            && Decisions(r, calls, collect) == seq(n, i => true)
            && Admitted(calls, Decisions(r, calls, collect), c.ip) == n
  {
    hide Step, Inv, Level;
    if n > 0 {
      var calls := Repeat(c, n);
      assert calls[..n - 1] == Repeat(c, n - 1);
      SpendAll(r, c, n - 1, collect);
      StepLevel(Run(r, calls[..n - 1], collect), c, collect, c.ip);
      assert Decisions(r, calls, collect)[..n - 1] == Decisions(r, calls[..n - 1], collect);
    }
  }

  lemma {:induction false} RunConcat(r: Limiter, a: seq<Call>, b: seq<Call>, collect: bool, ip: Bytes)
    ensures Run(r, a + b, collect) == Run(Run(r, a, collect), b, collect)
    ensures Admitted(a + b, Decisions(r, a + b, collect), ip)
            == Admitted(a, Decisions(r, a, collect), ip) + Admitted(b, Decisions(Run(r, a, collect), b, collect), ip)
  {
    hide Step;
    if b == [] {
      assert a + b == a;
    } else {
      var n := |b| - 1;
      assert (a + b)[..|a + b| - 1] == a + b[..n];
      RunConcat(r, a, b[..n], collect, ip);
      DecisionsPrefix(r, a + b, collect);
      DecisionsPrefix(r, b, collect);
      DecisionsPrefix(Run(r, a, collect), b, collect);
    }
  }

  lemma DecisionsPrefix(r: Limiter, calls: seq<Call>, collect: bool)
    requires calls != []
    ensures Decisions(r, calls, collect)[..|calls| - 1] == Decisions(r, calls[..|calls| - 1], collect)
  {
  }

  /** Some bucket of `ip` was last used at `now`, and the last sweep was at `now` too. */
  ghost predicate UsedAt(r: Limiter, ip: Bytes, now: int) {
    r.lastGC == now && ip in r.buckets && r.buckets[ip].lastSeen == now
  }

  lemma {:induction false} BurstUses(r: Limiter, c: Call, n: nat)
    requires n >= 1 && r.lastGC == c.now
    ensures UsedAt(Run(r, Repeat(c, n), true), c.ip, c.now)
  {
    hide Earned;
    assert Repeat(c, n)[..n - 1] == Repeat(c, n - 1);
    if n > 1 {
      BurstUses(r, c, n - 1);
    }
  }

  /** The whole burst, and the whole burst again as soon as the emptied bucket has been collected. */
  function TwoBursts(ip: Bytes, n: nat): seq<Call> {
    Repeat(Call(ip, 0), n) + Repeat(Call(ip, MAX_IDLE + 1), n)
  }

  lemma TwoBurstsAdmitted(rate: real, n: nat, ip: Bytes)
    requires rate > 0.0 && n >= 1
    ensures var r, calls := New(rate, n, 0), TwoBursts(ip, n);
            && Inv(r, 0) && Monotone(0, calls) && |calls| == 2 * n
            && Admitted(calls, Decisions(r, calls, true), ip) == 2 * n
  {
    hide Earned, Decisions, Admitted, Run;
    var r := New(rate, n, 0);
    var first, second := Repeat(Call(ip, 0), n), Repeat(Call(ip, MAX_IDLE + 1), n);
    SpendAll(r, Call(ip, 0), n, true);
    BurstUses(r, Call(ip, 0), n);
    var s := Run(r, first, true);
    var later := MAX_IDLE + 1;
    LevelLater(s, ip, 0, later);
    CollectedLevel(s, ip, 0, later);
    SweptFirst(s, Call(ip, later), n);
    RunConcat(r, first, second, true, ip);
  }

  lemma CollectedLevel(s: Limiter, ip: Bytes, now: int, later: int)
    requires Inv(s, now) && UsedAt(s, ip, now) && later == now + MAX_IDLE + 1
    ensures Inv(Sweep(s, later), later) && Level(Sweep(s, later), ip, later) == s.burst
  {
    hide Earned;
    LevelLater(s, ip, now, later);
    SweepKeepsLevels(s, later, ip);
  }

  /** A run of calls at one instant starts with the sweep. */
  lemma SweptFirst(s: Limiter, c: Call, n: nat)
    requires s.burst == n as real && n >= 1
    requires Inv(Sweep(s, c.now), c.now) && Level(Sweep(s, c.now), c.ip, c.now) == s.burst
    ensures Admitted(Repeat(c, n), Decisions(s, Repeat(c, n), true), c.ip) == n
  {
    hide Inv, Level, Earned;
    SweepTwice(s, c, n);
    SpendAll(Sweep(s, c.now), c, n, true);
  }

  lemma {:induction false} SweepTwice(s: Limiter, c: Call, n: nat)
    requires n >= 1
    ensures Run(Sweep(s, c.now), Repeat(c, n), true) == Run(s, Repeat(c, n), true)
    ensures Decisions(Sweep(s, c.now), Repeat(c, n), true) == Decisions(s, Repeat(c, n), true)
  {
    hide Take;
    var t := Sweep(s, c.now);
    assert Repeat(c, n)[..n - 1] == Repeat(c, n - 1);
    assert Sweep(t, c.now) == t;
    if n > 1 {
      SweepTwice(s, c, n - 1);
    }
  }

  // ---- exactly when the limiter limits ----

  /** No run of a limiter with these settings is decided differently because buckets are collected. */
  ghost predicate CollectionHarmless(rate: real, burst: nat) {
    forall start: int, calls: seq<Call> :: Monotone(start, calls) ==>
      Decisions(New(rate, burst, start), calls, true) == Decisions(New(rate, burst, start), calls, false)
  }

  /** Every run admits at most burst + rate * (t2 - t1) calls of any one address. */
  ghost predicate BoundHolds(rate: real, burst: nat) {
    forall start: int, calls: seq<Call>, ip: Bytes :: Monotone(start, calls) && calls != [] ==>
      Admitted(calls, Decisions(New(rate, burst, start), calls, true), ip) as real
      <= burst as real + Earned(rate, calls[0].now, calls[|calls| - 1].now)
  }

  lemma NewInv(rate: real, burst: nat, start: int)
    requires rate > 0.0 && burst >= 1
    ensures Inv(New(rate, burst, start), start)
  {
  }

  /** Without collection, two bursts this close are too many when the bucket refills too slowly. */
  lemma SlowRefill(rate: real, n: nat, ip: Bytes)
    requires rate > 0.0 && n >= 1 && !RefillsInTime(rate, n as real)
    ensures var r, calls := New(rate, n, 0), TwoBursts(ip, n);
            && Monotone(0, calls) && calls != []
            && n as real + Earned(rate, calls[0].now, calls[|calls| - 1].now) < (2 * n) as real
            && Admitted(calls, Decisions(r, calls, false), ip) < 2 * n
            && Admitted(calls, Decisions(r, calls, true), ip) == 2 * n
  {
    hide Decisions, Admitted, Earned;
    var r, calls := New(rate, n, 0), TwoBursts(ip, n);
    TwoBurstsAdmitted(rate, n, ip);
    AdmittedBound(r, calls, false, ip);
  }

  /** Collection changes some decision exactly when a bucket can be collected before it is full. */
  lemma CollectionExactly(rate: real, burst: nat)
    requires rate > 0.0 && burst >= 1
    ensures CollectionHarmless(rate, burst) <==> RefillsInTime(rate, burst as real)
  {
    hide Decisions, Admitted, Earned, Inv, RefillsInTime;
    if RefillsInTime(rate, burst as real) {
      forall start: int, calls: seq<Call> | Monotone(start, calls)
        ensures Decisions(New(rate, burst, start), calls, true) == Decisions(New(rate, burst, start), calls, false)
      {
        NewInv(rate, burst, start);
        RunSameLevels(New(rate, burst, start), calls, start);
      }
    } else {
      SlowRefill(rate, burst, []);
    }
  }

  /** The token-bucket bound holds of every run exactly under the same condition. */
  lemma BoundExactly(rate: real, burst: nat)
    requires rate > 0.0 && burst >= 1
    ensures BoundHolds(rate, burst) <==> RefillsInTime(rate, burst as real)
  {
    hide Decisions, Admitted, Earned, Inv, RefillsInTime;
    if RefillsInTime(rate, burst as real) {
      forall start: int, calls: seq<Call>, ip: Bytes | Monotone(start, calls) && calls != []
        ensures Admitted(calls, Decisions(New(rate, burst, start), calls, true), ip) as real
                <= burst as real + Earned(rate, calls[0].now, calls[|calls| - 1].now)
      {
        NewInv(rate, burst, start);
        LevelLater(New(rate, burst, start), ip, start, calls[0].now);
        AdmittedBound(New(rate, burst, start), calls, true, ip);
      }
    } else {
      SlowRefill(rate, burst, []);
      BoundBroken(rate, burst, TwoBursts([], burst));
    }
  }

  /** One run that admits more than the bound. */
  lemma BoundBroken(rate: real, burst: nat, calls: seq<Call>)
    requires Monotone(0, calls) && calls != []
    requires Admitted(calls, Decisions(New(rate, burst, 0), calls, true), []) as real
             > burst as real + Earned(rate, calls[0].now, calls[|calls| - 1].now)
    ensures !BoundHolds(rate, burst)
  {
    hide Decisions, Admitted, Earned, Monotone;
  }

  // ---- rates, limits and idle times in numbers ----

  /** A rate is tokens a second, and a bucket refills in time when 120.000000001 s of it make a burst. */
  lemma EarnedIs(rate: real, a: int, b: int, burst: real)
    ensures Earned(rate, a, b) * 1_000_000_000.0 == (b - a) as real * rate
    ensures RefillsInTime(rate, burst) <==> burst * 1_000_000_000.0 <= 120_000_000_001.0 * rate
  {
    EarnedTimes(rate, a, b);
    EarnedTimes(rate, 0, MAX_IDLE + 1);
  }

  lemma EarnedTimes(rate: real, a: int, b: int)
    ensures Earned(rate, a, b) * 1_000_000_000.0 == (b - a) as real * rate
  {
    var q := (b - a) as real / 1_000_000_000.0;
    assert q * rate * 1_000_000_000.0 == q * 1_000_000_000.0 * rate;
  }

  /** The defaults are 100 tokens a second and a burst of 200. */
  lemma Defaults(rate: real, burst: int, now: int)
    ensures var r := New(rate, burst, now);
            && (if rate > 0.0 then r.rate == rate else r.rate == 100.0)
            && (if burst > 0 then r.burst == burst as real else r.burst == 200.0)
            && r.buckets == map[]
  {
  }

  /** When `ip` called last. */
  function LastCall(calls: seq<Call>, ip: Bytes): Option<int> {
    if calls == [] then None
    else
      var c := calls[|calls| - 1];
      if c.ip == ip then Some(c.now) else LastCall(calls[..|calls| - 1], ip)
  }

  /** The buckets at `now`: of every address that called in the last two minutes, and of none idle for three. */
  ghost predicate Remembers(r: Limiter, calls: seq<Call>, now: int) {
    && 0 <= now - r.lastGC < 60_000_000_000
    && (forall k :: k in r.buckets ==>
          && LastCall(calls, k) == Some(r.buckets[k].lastSeen)
          && r.lastGC - r.buckets[k].lastSeen <= 120_000_000_000)
    && forall k :: LastCall(calls, k).Some? && now - LastCall(calls, k).value <= 120_000_000_000 ==> k in r.buckets
  }

  /** In every run idle buckets go, and only they. */
  lemma {:induction false} RunRemembers(r: Limiter, calls: seq<Call>, start: int)
    requires r.buckets == map[] && r.lastGC == start && Monotone(start, calls)
    ensures var end := if calls == [] then start else calls[|calls| - 1].now;
            Remembers(Run(r, calls, true), calls, end)
    ensures var end := if calls == [] then start else calls[|calls| - 1].now;
            forall k :: k in Run(r, calls, true).buckets ==> end - Run(r, calls, true).buckets[k].lastSeen < 180_000_000_000
  {
    hide Step;
    if calls != [] {
      var n := |calls| - 1;
      var mid := if n == 0 then start else calls[n - 1].now;
      RunRemembers(r, calls[..n], start);
      assert calls[..n] + [calls[n]] == calls;
      StepRemembers(Run(r, calls[..n], true), calls[..n], mid, calls[n]);
    }
  }

  lemma StepRemembers(r: Limiter, calls: seq<Call>, before: int, c: Call)
    requires Remembers(r, calls, before) && before <= c.now
    ensures Remembers(Step(r, c, true).0, calls + [c], c.now)
  {
    var s, t := Sweep(r, c.now), Step(r, c, true).0;
    assert forall k :: k in t.buckets <==> k == c.ip || k in s.buckets;
    assert forall k :: k in s.buckets ==> k in r.buckets && s.buckets[k] == r.buckets[k];
    assert forall k :: k != c.ip && k in s.buckets ==> t.buckets[k] == s.buckets[k];
    assert t.lastGC == s.lastGC && t.buckets[c.ip].lastSeen == c.now;
    forall k
      ensures LastCall(calls + [c], k) == if k == c.ip then Some(c.now) else LastCall(calls, k)
    {
      assert (calls + [c])[..|calls|] == calls;
    }
  }
}
