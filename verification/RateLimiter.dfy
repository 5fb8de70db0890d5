/** The limiter of internal/security/ratelimit.go as it is built: a map of mutable buckets. */
module RateLimiter {
  import opened Octets
  import opened Durations
  import opened RateLimiterSpec

  class IpBucket {
    var tokens: real
    var lastSeen: int
    var drops: nat

    constructor (t: real, seen: int)
      ensures tokens == t && lastSeen == seen && drops == 0
    {
      tokens, lastSeen, drops := t, seen, 0;
    }

    function Value(): Bucket
      reads this
    {
      Bucket(tokens, lastSeen, drops)
    }

    /** The part of Allow that works on a bucket that is there. */
    method Spend(rate: real, burst: real, now: int) returns (ok: bool)
      modifies this
      ensures var b := old(Value());
              var earned := b.tokens + Earned(rate, b.lastSeen, now);
              var t := if earned > burst then burst else earned;
              && ok == (t >= 1.0)
              && Value() == if ok then Bucket(t - 1.0, now, b.drops) else Bucket(t, now, b.drops + 1)
    {
      tokens := tokens + (now - lastSeen) as real / SECOND as real * rate;
      if tokens > burst {
        tokens := burst;
      }
      lastSeen := now;
      if tokens < 1.0 {
        drops := drops + 1;
        return false;
      }
      tokens := tokens - 1.0;
      return true;
    }
  }

  class RateLimiter {
    var buckets: map<Bytes, IpBucket>
    var rate: real
    var burst: real
    var lastGC: int

    /** No two addresses share a bucket. */
    ghost predicate Valid()
      reads this
    {
      forall a, b :: a in buckets && b in buckets && a != b ==> buckets[a] != buckets[b]
    }

    ghost function View(): Limiter
      reads this, buckets.Values
    {
      Limiter(map k | k in buckets :: buckets[k].Value(), rate, burst, lastGC)
    }

    constructor (r: real, b: int, now: int)
      ensures Valid() && buckets == map[]
      ensures View() == New(r, b, now)
    {
      rate := if r <= 0.0 then 100.0 else r;
      burst := if b <= 0 then 200.0 else b as real;
      buckets, lastGC := map[], now;
    }

    method Allow(ip: Bytes, now: int) returns (ok: bool)
      requires Valid()
      modifies this`buckets, this`lastGC, buckets.Values
      ensures Valid() && forall k :: k in buckets ==> buckets[k] in old(buckets.Values) || fresh(buckets[k])
      ensures View() == RateLimiterSpec.Allow(old(View()), ip, now).0
      ensures ok == RateLimiterSpec.Allow(old(View()), ip, now).1
    {
      hide RateLimiterSpec.Take, Collected;
      if now - lastGC >= GC_INTERVAL {
        Collect(now);
        lastGC := now;
      }
      assert View() == Sweep(old(View()), now);
      ok := Take(ip, now);
    }

    /** Allow after the sweep. */
    method Take(ip: Bytes, now: int) returns (ok: bool)
      requires Valid()
      modifies this`buckets, buckets.Values
      ensures Valid() && forall k :: k in buckets ==> buckets[k] in old(buckets.Values) || fresh(buckets[k])
      ensures View() == RateLimiterSpec.Take(old(View()), ip, now).0
      ensures ok == RateLimiterSpec.Take(old(View()), ip, now).1
    {
      hide Earned;
      ghost var s := View();
      if ip !in buckets {
        var b := new IpBucket(burst - 1.0, now);
        buckets := buckets[ip := b];
        assert View().buckets == s.buckets[ip := b.Value()];
        return true;
      }
      var b := buckets[ip];
      ok := b.Spend(rate, burst, now);
      assert View().buckets == s.buckets[ip := b.Value()];
    }

    /** gcLocked: idle buckets are deleted while the map is walked. */
    method Collect(now: int)
      requires Valid()
      modifies this`buckets
      ensures Valid() && forall k :: k in buckets ==> k in old(buckets) && buckets[k] == old(buckets[k])
      ensures View() == old(View()).(buckets := Collected(old(View()).buckets, now))
    {
      ghost var all := buckets;
      var rest := buckets.Keys;
      while rest != {}
        invariant rest <= all.Keys
        invariant forall k :: k in buckets <==> k in all && (k in rest || !(now - all[k].lastSeen > MAX_IDLE))
        invariant forall k :: k in buckets ==> buckets[k] == all[k]
        decreases |rest|
      {
        var k :| k in rest;
        if now - buckets[k].lastSeen > MAX_IDLE {
          buckets := buckets - {k};
        }
        rest := rest - {k};
      }
      ghost var kept := Collected(old(View()).buckets, now);
      assert forall k :: k in kept <==> k in buckets;
      assert forall k :: k in kept ==> kept[k] == buckets[k].Value();
    }

    method Update(r: real, b: int)
      requires Valid()
      modifies this`rate, this`burst
      ensures Valid() && View() == RateLimiterSpec.Update(old(View()), r, b)
    {
      if r > 0.0 {
        rate := r;
      }
      if b > 0 {
        burst := b as real;
      }
    }
  }
}
