/** The limiter of internal/security/rrl.go as it is built: a map of mutable buckets. */
module ResponseLimiter {
  import opened Octets
  import opened Durations
  import opened ResponseLimiterSpec

  class RRLBucket {
    var windowStart: int
    var count: nat
    var slipped: nat
    var lastSeen: int

    constructor (now: int)
      ensures Value() == Bucket(now, 1, 0, now)
    {
      windowStart, count, slipped, lastSeen := now, 1, 0, now;
    }

    function Value(): Bucket
      reads this
    {
      Bucket(windowStart, count, slipped, lastSeen)
    }

    /** The part of Allow that works on a bucket that is there. */
    method Spend(limit: positive, slip: positive, now: int) returns (ok: bool)
      modifies this
      ensures (Value(), ok) == ResponseLimiterSpec.Spend(old(Value()), limit, slip, now)
    {
      if now - windowStart >= SECOND {
        windowStart := now;
        count := 0;
        slipped := 0;
      }
      count := count + 1;
      lastSeen := now;
      if count <= limit {
        return true;
      }
      slipped := slipped + 1;
      return slipped % slip == 0;
    }
  }

  class RRL {
    var buckets: map<Bytes, RRLBucket>
    var limit: positive
    var slip: positive
    var lastGC: int
    var drops: nat

    /** No two tuples share a bucket. */
    ghost predicate Valid()
      reads this
    {
      forall a, b :: a in buckets && b in buckets && a != b ==> buckets[a] != buckets[b]
    }

    ghost function View(): Limiter
      reads this, buckets.Values
    {
      Limiter(map k | k in buckets :: buckets[k].Value(), limit, slip, lastGC, drops)
    }

    constructor (limitPerSec: int, slipEvery: int, now: int)
      ensures Valid() && buckets == map[]
      ensures View() == New(limitPerSec, slipEvery, now)
    {
      limit := if limitPerSec <= 0 then 10 else limitPerSec;
      slip := if slipEvery <= 0 then 2 else slipEvery;
      buckets, lastGC, drops := map[], now, 0;
    }

    method Allow(tuple: Bytes, now: int) returns (ok: bool)
      requires Valid()
      modifies this`buckets, this`lastGC, this`drops, buckets.Values
      ensures Valid() && forall k :: k in buckets ==> buckets[k] in old(buckets.Values) || fresh(buckets[k])
      ensures View() == ResponseLimiterSpec.Allow(old(View()), tuple, now).0
      ensures ok == ResponseLimiterSpec.Allow(old(View()), tuple, now).1
    {
      hide ResponseLimiterSpec.Take, Collected;
      if now - lastGC >= GC_INTERVAL {
        Collect(now);
        lastGC := now;
      }
      assert View() == Sweep(old(View()), now);
      ok := Take(tuple, now);
    }

    /** Allow after the sweep. */
    method Take(tuple: Bytes, now: int) returns (ok: bool)
      requires Valid()
      modifies this`buckets, this`drops, buckets.Values
      ensures Valid() && forall k :: k in buckets ==> buckets[k] in old(buckets.Values) || fresh(buckets[k])
      ensures View() == ResponseLimiterSpec.Take(old(View()), tuple, now).0
      ensures ok == ResponseLimiterSpec.Take(old(View()), tuple, now).1
    {
      hide ResponseLimiterSpec.Spend;
      ghost var s := View();
      if tuple !in buckets {
        var b := new RRLBucket(now);
        buckets := buckets[tuple := b];
        assert View().buckets == s.buckets[tuple := b.Value()];
        return true;
      }
      var b := buckets[tuple];
      ok := b.Spend(limit, slip, now);
      if !ok {
        drops := drops + 1;
      }
      assert View().buckets == s.buckets[tuple := b.Value()];
    }

    /** gcLocked: idle buckets are deleted while the map is walked. */
    method Collect(now: int)
      requires Valid()
      modifies this`buckets
      ensures Valid() && forall k :: k in buckets ==> k in old(buckets) && buckets[k] == old(buckets[k])
      ensures View() == old(View()).(buckets := Collected(old(View()).buckets, now))
    {
      ghost var all := buckets;
      var rest := buckets.Keys;
      while rest != {}
        invariant rest <= all.Keys
        invariant forall k :: k in buckets <==> k in all && (k in rest || !(now - all[k].lastSeen > MAX_IDLE))
        invariant forall k :: k in buckets ==> buckets[k] == all[k]
        decreases |rest|
      {
        var k :| k in rest;
        if now - buckets[k].lastSeen > MAX_IDLE {
          buckets := buckets - {k};
        }
        rest := rest - {k};
      }
      ghost var kept := Collected(old(View()).buckets, now);
      assert forall k :: k in kept <==> k in buckets;
      assert forall k :: k in kept ==> kept[k] == buckets[k].Value();
    }

    method Update(limitPerSec: int, slipEvery: int)
      requires Valid()
      modifies this`limit, this`slip
      ensures Valid() && View() == ResponseLimiterSpec.Update(old(View()), limitPerSec, slipEvery)
    {
      if limitPerSec > 0 {
        limit := limitPerSec;
      }
      if slipEvery > 0 {
        slip := slipEvery;
      }
    }
  }
}
