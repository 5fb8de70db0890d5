/** The response rate limiter of internal/security/rrl.go: a window of one second a tuple, with slip. */
module ResponseLimiterSpec {
  import opened Octets
  import opened Durations

  datatype Bucket = Bucket(windowStart: int, count: nat, slipped: nat, lastSeen: int)

  datatype Limiter = Limiter(buckets: map<Bytes, Bucket>, limit: positive, slip: positive, lastGC: int, drops: nat)

  function New(limit: int, slip: int, now: int): Limiter {
    Limiter(map[], if limit <= 0 then 10 else limit, if slip <= 0 then 2 else slip, now, 0)
  }

  function Collected(m: map<Bytes, Bucket>, now: int): map<Bytes, Bucket> {
    map k | k in m && !(now - m[k].lastSeen > MAX_IDLE) :: m[k]
  }

  function Sweep(r: Limiter, now: int): Limiter {
    if now - r.lastGC >= GC_INTERVAL then r.(buckets := Collected(r.buckets, now), lastGC := now) else r
  }

  /** One more call on a bucket that is there. */
  function Spend(was: Bucket, limit: positive, slip: positive, now: int): (Bucket, bool) {
    var b := if now - was.windowStart >= SECOND then Bucket(now, 1, 0, now) else was.(count := was.count + 1, lastSeen := now);
    if b.count <= limit then (b, true) else (b.(slipped := b.slipped + 1), (b.slipped + 1) % slip == 0)
  }

  /** Allow after the sweep. */
  function Take(r: Limiter, tuple: Bytes, now: int): (Limiter, bool) {
    if tuple !in r.buckets then (r.(buckets := r.buckets[tuple := Bucket(now, 1, 0, now)]), true)
    else
      var (b, ok) := Spend(r.buckets[tuple], r.limit, r.slip, now);
      (r.(buckets := r.buckets[tuple := b], drops := r.drops + (if ok then 0 else 1)), ok)
  }

  function Allow(r: Limiter, tuple: Bytes, now: int): (Limiter, bool)
  {
    Take(Sweep(r, now), tuple, now)
  }

  function Update(r: Limiter, limit: int, slip: int): Limiter {
    r.(limit := if limit > 0 then limit else r.limit, slip := if slip > 0 then slip else r.slip)
  }

  // ---- runs ----

  datatype Op = Call(tuple: Bytes, now: int) | Configure(limit: int, slip: int)

  /** Calls come in time order; settings may change between them. */
  ghost predicate Monotone(start: int, ops: seq<Op>) {
    && (forall i :: 0 <= i < |ops| && ops[i].Call? ==> start <= ops[i].now)
    && (forall i, j :: 0 <= i < j < |ops| && ops[i].Call? && ops[j].Call? ==> ops[i].now <= ops[j].now)
  }

  /** `collect` tells the limiter from one that never drops idle buckets. */
  function Step(r: Limiter, op: Op, collect: bool): (Limiter, bool)
  {
    match op
    case Call(tuple, now) => if collect then Allow(r, tuple, now) else Take(r, tuple, now)
    case Configure(limit, slip) => (Update(r, limit, slip), false)
  }

  function Run(r: Limiter, ops: seq<Op>, collect: bool): Limiter
  {
    if ops == [] then r else Step(Run(r, ops[..|ops| - 1], collect), ops[|ops| - 1], collect).0
  }

  function Decisions(r: Limiter, ops: seq<Op>, collect: bool): (d: seq<bool>)
    ensures |d| == |ops|
  {
    if ops == [] then []
    else
      var n := |ops| - 1;
      Decisions(r, ops[..n], collect) + [Step(Run(r, ops[..n], collect), ops[n], collect).1]
  }

  predicate IsCall(op: Op, tuple: Option<Bytes>) {
    op.Call? && (tuple.Some? ==> op.tuple == tuple.value)
  }

  /** How many calls there are, for one tuple or for all. */
  function Calls(ops: seq<Op>, tuple: Option<Bytes>): nat {
    if ops == [] then 0
    else Calls(ops[..|ops| - 1], tuple) + (if IsCall(ops[|ops| - 1], tuple) then 1 else 0)
  }

  /** How many of them were let through. */
  function Admitted(ops: seq<Op>, decisions: seq<bool>, tuple: Option<Bytes>): nat
    requires |decisions| == |ops|
  {
    if ops == [] then 0
    else
      var n := |ops| - 1;
      Admitted(ops[..n], decisions[..n], tuple) + (if IsCall(ops[n], tuple) && decisions[n] then 1 else 0)
  }

  // ---- what a tuple's bucket amounts to ----

  datatype Window = Window(start: int, count: nat, slipped: nat)

  /** The window a tuple is in at `now`: a bucket whose second is over is as good as none. */
  function Current(r: Limiter, tuple: Bytes, now: int): Option<Window> {
    if tuple in r.buckets && now - r.buckets[tuple].windowStart < SECOND
    then Some(Window(r.buckets[tuple].windowStart, r.buckets[tuple].count, r.buckets[tuple].slipped)) else None
  }

  ghost predicate Inv(r: Limiter, now: int) {
    forall k :: k in r.buckets ==> r.buckets[k].windowStart <= r.buckets[k].lastSeen <= now && r.buckets[k].count >= 1
  }

  /** The window after one more call, and whether that call is answered. */
  function Advance(w: Option<Window>, now: int, limit: positive, slip: positive): (Window, bool)
  {
    var v := if w.Some? then Window(w.value.start, w.value.count + 1, w.value.slipped) else Window(now, 1, 0);
    if v.count <= limit then (v, true) else (v.(slipped := v.slipped + 1), (v.slipped + 1) % slip == 0)
  }

  lemma StepCurrent(r: Limiter, op: Op, collect: bool, now: int, tuple: Bytes)
    requires Inv(r, now) && (op.Call? ==> now == op.now)
    ensures var (t, ok) := Step(r, op, collect);
            && Inv(t, now)
            && (op.Call? ==>
                  && t.limit == r.limit && t.slip == r.slip
                  && ok == Advance(Current(r, op.tuple, now), now, r.limit, r.slip).1
                  && t.drops == r.drops + (if ok then 0 else 1))
            && Current(t, tuple, now) == if IsCall(op, Some(tuple)) then
                                           Some(Advance(Current(r, tuple, now), now, r.limit, r.slip).0)
                                         else Current(r, tuple, now)
  {
    if op.Call? {
      var s := if collect then Sweep(r, now) else r;
      assert Inv(s, now) && Current(s, tuple, now) == Current(r, tuple, now);
      assert Current(s, op.tuple, now) == Current(r, op.tuple, now);
      hide Sweep;
      TakeCurrent(s, op.tuple, now, tuple);
    }
  }

  lemma TakeCurrent(r: Limiter, who: Bytes, now: int, tuple: Bytes)
    requires Inv(r, now)
    ensures var (t, ok) := Take(r, who, now);
            && Inv(t, now) && t.limit == r.limit && t.slip == r.slip
            && ok == Advance(Current(r, who, now), now, r.limit, r.slip).1
            && t.drops == r.drops + (if ok then 0 else 1)
            && Current(t, tuple, now) == if who == tuple then Some(Advance(Current(r, tuple, now), now, r.limit, r.slip).0)
                                         else Current(r, tuple, now)
  {
  }

  lemma CurrentLater(r: Limiter, tuple: Bytes, now: int, later: int)
    requires Inv(r, now) && now <= later
    ensures Inv(r, later)
    ensures var w := Current(r, tuple, now);
            Current(r, tuple, later) == if w.Some? && later - w.value.start < SECOND then w else None
  {
  }

  // ---- every drop is counted ----

  lemma {:induction false} DropsCounted(r: Limiter, ops: seq<Op>)
    ensures Run(r, ops, true).drops + Admitted(ops, Decisions(r, ops, true), None) == r.drops + Calls(ops, None)
  {
    hide Step;
    if ops != [] {
      var n := |ops| - 1;
      DropsCounted(r, ops[..n]);
      StepDrops(Run(r, ops[..n], true), ops[n]);
      assert Decisions(r, ops, true)[..n] == Decisions(r, ops[..n], true);
    }
  }

  lemma StepDrops(r: Limiter, op: Op)
    ensures var (t, ok) := Step(r, op, true); t.drops == r.drops + (if op.Call? && !ok then 1 else 0)
  {
  }

  // ---- the exact count in a window ----

  function Least(a: nat, b: nat): nat {
    if a < b then a else b
  }

  /** The answers n calls get inside one window. */
  function WindowAdmits(n: nat, limit: positive, slip: positive): nat
  {
    Least(n, limit) + (n - Least(n, limit)) / slip
  }

  lemma NextMultiple(x: nat, slip: positive)
    ensures (x + 1) / slip == x / slip + (if (x + 1) % slip == 0 then 1 else 0)
  {
    var q, m := x / slip, x % slip;
    assert x == q * slip + m;
    if m + 1 == slip {
      assert x + 1 == (q + 1) * slip;
      DivModUnique(x + 1, q + 1, 0, slip);
    } else {
      DivModUnique(x + 1, q, m + 1, slip);
    }
  }

  lemma DivModUnique(x: nat, q: nat, m: nat, slip: positive)
    requires m < slip && x == q * slip + m
    ensures x / slip == q && x % slip == m
  {
    var d := x / slip - q;
    assert x == (x / slip) * slip + x % slip;
    assert d * slip == m - x % slip;
  }

  lemma AdmitOneMore(n: nat, limit: positive, slip: positive)
    ensures WindowAdmits(n + 1, limit, slip)
            == WindowAdmits(n, limit, slip) + (if n < limit || (n + 1 - limit) % slip == 0 then 1 else 0)
  {
    if n >= limit {
      NextMultiple(n - limit, slip);
    }
  }

  /** Calls of one window of `tuple`, first to last, among calls for any other tuple. */
  ghost predicate OneWindow(r: Limiter, ops: seq<Op>, tuple: Bytes, start: int) {
    && Inv(r, start) && Current(r, tuple, start).None?
    && ops != [] && ops[0] == Call(tuple, start) && Monotone(start, ops)
    && (forall i :: 0 <= i < |ops| ==> ops[i].Call? && ops[i].now < start + 1_000_000_000)
  }

  /** n calls inside one window admit exactly min(n, limit) + max(0, n - limit) div slip. */
  lemma {:induction false} WindowCount(r: Limiter, ops: seq<Op>, tuple: Bytes, start: int)
    requires OneWindow(r, ops, tuple, start)
    ensures var n := Calls(ops, Some(tuple));
            && Admitted(ops, Decisions(r, ops, true), Some(tuple)) == WindowAdmits(n, r.limit, r.slip)
            && WindowAdmits(n, r.limit, r.slip) == if n <= r.limit then n else r.limit + (n - r.limit) / r.slip
    ensures var t, n := Run(r, ops, true), Calls(ops, Some(tuple));
            && Inv(t, ops[|ops| - 1].now) && t.limit == r.limit && t.slip == r.slip && n >= 1
            && Current(t, tuple, ops[|ops| - 1].now) == Some(Window(start, n, n - Least(n, r.limit)))
  {
    hide Step, Inv, Current, WindowAdmits;
    AdmitsIs(Calls(ops, Some(tuple)), r.limit, r.slip);
    var n := |ops| - 1;
    var c := ops[n];
    assert Decisions(r, ops, true)[..n] == Decisions(r, ops[..n], true);
    if n == 0 {
      assert ops[..n] == [];
      StepCurrent(r, c, true, start, tuple);
      AdmitOneMore(0, r.limit, r.slip);
      assert WindowAdmits(0, r.limit, r.slip) == 0 by { NoneAdmitted(r.limit, r.slip); }
    } else {
      var before := ops[n - 1].now;
      WindowCount(r, ops[..n], tuple, start);
      var s := Run(r, ops[..n], true);
      CurrentLater(s, tuple, before, c.now);
      StepCurrent(s, c, true, c.now, tuple);
      AdmitOneMore(Calls(ops[..n], Some(tuple)), r.limit, r.slip);
    }
  }

  lemma AdmitsIs(n: nat, limit: positive, slip: positive)
    ensures WindowAdmits(n, limit, slip) == if n <= limit then n else limit + (n - limit) / slip
  {
    if n <= limit {
      assert 0 / slip == 0;
    }
  }

  lemma NoneAdmitted(limit: positive, slip: positive)
    ensures WindowAdmits(0, limit, slip) == 0
  {
  }

  // ---- collecting idle buckets ----

  ghost predicate SameWindows(a: Limiter, b: Limiter, now: int) {
    && Inv(a, now) && Inv(b, now) && a.limit == b.limit && a.slip == b.slip
    && forall tuple :: Current(a, tuple, now) == Current(b, tuple, now)
  }

  lemma StepSameWindows(a: Limiter, b: Limiter, before: int, op: Op, now: int)
    requires SameWindows(a, b, before) && before <= now && (op.Call? ==> now == op.now)
    ensures SameWindows(Step(a, op, true).0, Step(b, op, false).0, now)
    ensures Step(a, op, true).1 == Step(b, op, false).1
  {
    hide Allow, Take, Inv, Current, Advance;
    var s, t := Step(a, op, true).0, Step(b, op, false).0;
    CurrentLater(a, [], before, now);
    CurrentLater(b, [], before, now);
    StepCurrent(a, op, true, now, []);
    StepCurrent(b, op, false, now, []);
    forall tuple: Bytes
      ensures Current(a, tuple, now) == Current(b, tuple, now) && Current(s, tuple, now) == Current(t, tuple, now)
    {
      CurrentLater(a, tuple, before, now);
      CurrentLater(b, tuple, before, now);
      StepCurrent(a, op, true, now, tuple);
      StepCurrent(b, op, false, now, tuple);
    }
  }

  /** The time of the last call, or `start`. */
  function Last(start: int, ops: seq<Op>): int {
    if ops == [] then start
    else if ops[|ops| - 1].Call? then ops[|ops| - 1].now else Last(start, ops[..|ops| - 1])
  }

  lemma {:induction false} LastBound(start: int, ops: seq<Op>, op: Op)
    requires Monotone(start, ops + [op])
    ensures start <= Last(start, ops) && (op.Call? ==> Last(start, ops) <= op.now)
  {
    var all := ops + [op];
    assert all[|ops|] == op;
    if ops != [] {
      var n := |ops| - 1;
      assert forall i :: 0 <= i <= n ==> all[i] == ops[i];
      if !ops[n].Call? {
        assert Monotone(start, ops[..n] + [op]);
        LastBound(start, ops[..n], op);
      }
    }
  }

  /** Whatever the settings and however they change, collecting idle buckets changes no decision. */
  lemma {:induction false} CollectionHarmless(r: Limiter, ops: seq<Op>, start: int)
    requires Inv(r, start) && Monotone(start, ops)
    ensures Decisions(r, ops, true) == Decisions(r, ops, false)
    ensures SameWindows(Run(r, ops, true), Run(r, ops, false), Last(start, ops))
  {
    hide Step, Inv, Current;
    if ops != [] {
      var n := |ops| - 1;
      CollectionHarmless(r, ops[..n], start);
      assert ops == ops[..n] + [ops[n]];
      LastBound(start, ops[..n], ops[n]);
      StepSameWindows(Run(r, ops[..n], true), Run(r, ops[..n], false), Last(start, ops[..n]), ops[n], Last(start, ops));
    }
  }

  // ---- windows and limits in numbers ----

  /** A window lasts one second: a call after it finds the tuple as if it had never called. */
  lemma WindowRestarts(r: Limiter, ops: seq<Op>, tuple: Bytes, start: int, now: int)
    requires OneWindow(r, ops, tuple, start) && now >= start + 1_000_000_000
    ensures var t := Run(r, ops, true);
            && Inv(t, now) && t.limit == r.limit && t.slip == r.slip && Current(t, tuple, now).None?
    ensures OneWindow(Run(r, ops, true), [Call(tuple, now)], tuple, now)
  {
    hide Run, Inv, Current;
    WindowCount(r, ops, tuple, start);
    CurrentLater(Run(r, ops, true), tuple, ops[|ops| - 1].now, now);
  }

  /** The defaults are ten answers a window, and every second one after that. */
  lemma Defaults(limit: int, slip: int, now: int)
    ensures var r := New(limit, slip, now);
            && (if limit > 0 then r.limit == limit else r.limit == 10)
            && (if slip > 0 then r.slip == slip else r.slip == 2)
            && r.buckets == map[] && r.drops == 0
  {
  }
}
