/** The two token buckets, the gateway's per-route throttle and the per-tenant rate
    limit, with time and tokens as reals. */
module TokenBuckets {
  import opened Common

  datatype Bucket = Bucket(tokens: real, last: real)

  /** One call: who, when, and the rate and capacity in force for the key. */
  datatype Call = Call(key: string, now: real, rate: real, cap: real)

  type Buckets = map<string, Bucket>

  function Min(a: real, b: real): real {
    if a <= b then a else b
  }

  function Max(a: real, b: real): real {
    if a >= b then a else b
  }

  /** What flows into a bucket over a time. */
  function Refill(time: real, rate: real): real {
    time * rate
  }

  /** The balance a call finds: a new bucket is full, an old one has refilled up to its capacity. */
  function Level(m: Buckets, c: Call): real {
    if c.key in m then Min(c.cap, m[c.key].tokens + Refill(c.now - m[c.key].last, c.rate)) else c.cap
  }

  predicate Admitted(m: Buckets, c: Call) {
    Level(m, c) >= 1.0
  }

  function Step(m: Buckets, c: Call): Buckets {
    m[c.key := Bucket(if Admitted(m, c) then Level(m, c) - 1.0 else Level(m, c), c.now)]
  }

  function Run(m: Buckets, cs: seq<Call>): Buckets {
    if cs == [] then m else Step(Run(m, cs[..|cs| - 1]), cs[|cs| - 1])
  }

  /** How many calls of `key` a run admits. */
  function Count(m: Buckets, cs: seq<Call>, key: string): nat {
    if cs == [] then 0
    else
      var init, c := cs[..|cs| - 1], cs[|cs| - 1];
      Count(m, init, key) + if c.key == key && Admitted(Run(m, init), c) then 1 else 0
  }

  ghost predicate Clocked(cs: seq<Call>) {
    forall i, j :: 0 <= i <= j < |cs| ==> cs[i].now <= cs[j].now
  }

  /** Every call of `key` carries this rate and capacity. */
  ghost predicate Fixed(cs: seq<Call>, key: string, rate: real, cap: real) {
    forall i :: 0 <= i < |cs| && cs[i].key == key ==> cs[i].rate == rate && cs[i].cap == cap
  }

  // ---------- the balance stays in range ----------

  predicate InRange(m: Buckets, key: string, cap: real, now: real) {
    key in m ==> 0.0 <= m[key].tokens <= cap && m[key].last <= now
  }

  lemma Scale(x: real, r: real)
    requires x >= 0.0 && r >= 0.0
    ensures Refill(x, r) >= 0.0
  {
  }

  lemma StepInRange(m: Buckets, c: Call, key: string, cap: real)
    requires cap >= 0.0 && InRange(m, key, cap, c.now)
    requires c.key == key ==> c.rate >= 0.0 && c.cap == cap
    ensures InRange(Step(m, c), key, cap, c.now)
    ensures c.key == key ==> 0.0 <= Level(m, c) <= cap
  {
    if c.key == key && key in m {
      LevelInRange(m, c);
    }
  }

  lemma LevelInRange(m: Buckets, c: Call)
    requires c.key in m && InRange(m, c.key, c.cap, c.now) && c.rate >= 0.0
    ensures 0.0 <= Level(m, c) <= c.cap
  {
    var gain := Refill(c.now - m[c.key].last, c.rate);
    assert gain >= 0.0 by {
      Scale(c.now - m[c.key].last, c.rate);
    }
    assert Level(m, c) == Min(c.cap, m[c.key].tokens + gain);
  }

  /** A key's balance stays between zero and its capacity, whatever other keys do. */
  lemma {:induction false} BalanceInRange(m: Buckets, cs: seq<Call>, key: string, rate: real, cap: real)
    requires Clocked(cs) && Fixed(cs, key, rate, cap) && rate >= 0.0 && cap >= 0.0
    requires cs != [] ==> InRange(m, key, cap, cs[0].now)
    ensures cs != [] ==> InRange(Run(m, cs), key, cap, cs[|cs| - 1].now)
  {
    if cs != [] {
      var n := |cs| - 1;
      BalanceInRange(m, cs[..n], key, rate, cap);
      assert n > 0 ==> cs[n - 1].now <= cs[n].now;
      StepInRange(Run(m, cs[..n]), cs[n], key, cap);
    }
  }

  // ---------- the admission bound ----------

  /** A bucket's balance brought back to time zero at the refill rate: only spending changes it. */
  function Credit(m: Buckets, key: string, rate: real): real
    requires key in m
  {
    m[key].tokens - Refill(m[key].last, rate)
  }

  lemma Distribute(a: real, b: real, r: real)
    ensures Refill(a - b, r) == Refill(a, r) - Refill(b, r)
  {
  }

  /** A call takes what it spends from the credit, and capping can only take more. */
  lemma CreditSpent(m: Buckets, c: Call, key: string, rate: real)
    requires key in m && (c.key == key ==> c.rate == rate)
    ensures Credit(Step(m, c), key, rate) <= Credit(m, key, rate) - if c.key == key && Admitted(m, c) then 1.0 else 0.0
  {
    if c.key == key {
      Distribute(c.now, m[key].last, rate);
    }
  }

  lemma {:induction false} SpendingBound(m: Buckets, cs: seq<Call>, key: string, rate: real, cap: real)
    requires key in m && Fixed(cs, key, rate, cap)
    ensures key in Run(m, cs)
    ensures Count(m, cs, key) as real + Credit(Run(m, cs), key, rate) <= Credit(m, key, rate)
  {
    if cs != [] {
      var n := |cs| - 1;
      SpendingBound(m, cs[..n], key, rate, cap);
      CreditSpent(Run(m, cs[..n]), cs[n], key, rate);
    }
  }

  /** A full bucket and what refills from one time to another. */
  function Allowance(cap: real, rate: real, t0: real, t1: real): real {
    cap + Refill(t1 - t0, rate)
  }

  /** Requests of one key admitted from its call at `t` to its call at `t + T` number at
      most the capacity plus `rate * T`, from any reachable bucket and among calls of any
      other keys. */
  lemma {:induction false} AdmissionBound(m: Buckets, before: seq<Call>, cs: seq<Call>, key: string, rate: real, cap: real)
    requires cs != [] && cs[0].key == key && Clocked(before + cs) && Fixed(before + cs, key, rate, cap)
    requires rate >= 0.0 && cap >= 0.0 && key !in m
    ensures Count(Run(m, before), cs, key) as real <= Allowance(cap, rate, cs[0].now, cs[|cs| - 1].now)
  {
    var all := before + cs;
    var s := Run(m, before);
    forall i | 0 <= i < |before|
      ensures before[i] == all[i]
    {
    }
    forall i | 0 <= i < |cs|
      ensures cs[i] == all[|before| + i]
    {
    }
    BalanceInRange(m, before, key, rate, cap);
    if before == [] {
      assert s == m;
    } else {
      assert all[|before| - 1].now <= all[|before|].now;
    }
    FirstCallBound(s, cs, key, rate, cap);
  }

  lemma FirstCallBound(s: Buckets, cs: seq<Call>, key: string, rate: real, cap: real)
    requires cs != [] && cs[0].key == key && Clocked(cs) && Fixed(cs, key, rate, cap) && rate >= 0.0 && cap >= 0.0
    requires InRange(s, key, cap, cs[0].now)
    ensures Count(s, cs, key) as real <= Allowance(cap, rate, cs[0].now, cs[|cs| - 1].now)
  {
    var t := Step(s, cs[0]);
    FirstSpends(s, cs, key, rate, cap);
    RestSpends(s, cs, key, rate, cap);
    BalanceInRange(s, cs, key, rate, cap);
    EndAtLeast(Run(s, cs), cs, key, rate, cap);
    CountBound(s, cs, key, rate, cap, if Admitted(s, cs[0]) then 1 else 0, Count(t, cs[1..], key), Level(s, cs[0]),
               Credit(t, key, rate), Credit(Run(s, cs), key, rate));
  }

  lemma CountBound(s: Buckets, cs: seq<Call>, key: string, rate: real, cap: real, first: nat, rest: nat, level: real, credit: real, end: real)
    requires cs != [] && Count(s, cs, key) == first + rest && level <= cap && credit == level - first as real - Refill(cs[0].now, rate)
    requires rest as real + end <= credit && end >= 0.0 - Refill(cs[|cs| - 1].now, rate)
    ensures Count(s, cs, key) as real <= Allowance(cap, rate, cs[0].now, cs[|cs| - 1].now)
  {
    Combine(Count(s, cs, key), first, rest, level, credit, end, cap, cs[0].now, cs[|cs| - 1].now, rate);
  }

  lemma FirstSpends(s: Buckets, cs: seq<Call>, key: string, rate: real, cap: real)
    requires cs != [] && cs[0].key == key && Fixed(cs, key, rate, cap) && rate >= 0.0 && cap >= 0.0
    requires InRange(s, key, cap, cs[0].now)
    ensures var c, t, first := cs[0], Step(s, cs[0]), if Admitted(s, cs[0]) then 1 else 0;
            Count(s, cs, key) == first + Count(t, cs[1..], key) && Level(s, c) <= cap
            && Credit(t, key, rate) == Level(s, c) - first as real - Refill(c.now, rate)
  {
    RunHead(s, cs, key);
    FirstCall(s, cs[0], rate, cap);
  }

  lemma FirstCall(s: Buckets, c: Call, rate: real, cap: real)
    requires c.rate == rate && c.cap == cap && rate >= 0.0 && cap >= 0.0 && InRange(s, c.key, cap, c.now)
    ensures Level(s, c) <= cap
    ensures Credit(Step(s, c), c.key, rate) == Level(s, c) - (if Admitted(s, c) then 1 else 0) as real - Refill(c.now, rate)
  {
    StepInRange(s, c, c.key, cap);
    CreditAfter(s, c);
  }

  lemma RestSpends(s: Buckets, cs: seq<Call>, key: string, rate: real, cap: real)
    requires cs != [] && cs[0].key == key && Fixed(cs, key, rate, cap)
    ensures key in Run(s, cs)
    ensures Count(Step(s, cs[0]), cs[1..], key) as real + Credit(Run(s, cs), key, rate) <= Credit(Step(s, cs[0]), key, rate)
  {
    RunHead(s, cs, key);
    SpendingBound(Step(s, cs[0]), cs[1..], key, rate, cap);
  }

  lemma EndAtLeast(u: Buckets, cs: seq<Call>, key: string, rate: real, cap: real)
    requires cs != [] && rate >= 0.0 && key in u && InRange(u, key, cap, cs[|cs| - 1].now)
    ensures Credit(u, key, rate) >= 0.0 - Refill(cs[|cs| - 1].now, rate)
  {
    CreditAtLeast(u, key, rate, cap, cs[|cs| - 1].now);
  }

  lemma CreditAfter(m: Buckets, c: Call)
    ensures Credit(Step(m, c), c.key, c.rate) == Level(m, c) - (if Admitted(m, c) then 1.0 else 0.0) - Refill(c.now, c.rate)
  {
  }

  lemma Combine(count: nat, first: nat, rest: nat, level: real, credit: real, end: real, cap: real, t0: real, t1: real, rate: real)
    requires count == first + rest && credit == level - first as real - Refill(t0, rate) && level <= cap
    requires rest as real + end <= credit && end >= 0.0 - Refill(t1, rate)
    ensures count as real <= Allowance(cap, rate, t0, t1)
  {
    Distribute(t1, t0, rate);
  }

  lemma CreditAtLeast(m: Buckets, key: string, rate: real, cap: real, now: real)
    requires key in m && InRange(m, key, cap, now) && rate >= 0.0
    ensures Credit(m, key, rate) >= 0.0 - Refill(now, rate)
  {
    Scale(now - m[key].last, rate);
    Distribute(now, m[key].last, rate);
  }

  lemma {:induction false} RunHead(m: Buckets, cs: seq<Call>, key: string)
    requires cs != []
    ensures Run(m, cs) == Run(Step(m, cs[0]), cs[1..])
    ensures Count(m, cs, key) == (if cs[0].key == key && Admitted(m, cs[0]) then 1 else 0) + Count(Step(m, cs[0]), cs[1..], key)
  {
    var n := |cs| - 1;
    if n > 0 {
      RunHead(m, cs[..n], key);
      assert cs[..n][1..] == cs[1..][..n - 1];
    } else {
      assert cs[..0] == [] && cs[1..] == [];
    }
  }

  // ---------- waiting long enough ----------

  lemma {:induction false} QuietCredit(m: Buckets, cs: seq<Call>, key: string, rate: real, cap: real)
    requires key in m && m[key].tokens < 1.0 && cap >= 1.0
    requires Fixed(cs, key, rate, cap) && Count(m, cs, key) == 0
    ensures key in Run(m, cs) && Credit(Run(m, cs), key, rate) == Credit(m, key, rate)
  {
    if cs != [] {
      var n := |cs| - 1;
      QuietCredit(m, cs[..n], key, rate, cap);
      var u := Run(m, cs[..n]);
      if cs[n].key == key {
        assert !Admitted(u, cs[n]);
        Distribute(cs[n].now, u[key].last, rate);
      }
    }
  }

  /** A key with a capacity below one token is never admitted. */
  lemma {:induction false} NeverAdmitted(m: Buckets, cs: seq<Call>, key: string, rate: real, cap: real)
    requires Fixed(cs, key, rate, cap) && cap < 1.0
    ensures Count(m, cs, key) == 0
  {
    if cs != [] {
      NeverAdmitted(m, cs[..|cs| - 1], key, rate, cap);
    }
  }

  /** After a refusal, with no admission of the key in between, a later call is admitted
      exactly when its bucket can hold a token and the missing part of one has refilled. */
  lemma AdmittedOnceRefilled(m: Buckets, c: Call, cs: seq<Call>, d: Call)
    requires !Admitted(m, c) && d.key == c.key && d.rate == c.rate && d.cap == c.cap
    requires Fixed(cs, c.key, c.rate, c.cap) && Count(Step(m, c), cs, c.key) == 0
    ensures Admitted(Run(Step(m, c), cs), d) <==> c.cap >= 1.0 && Refill(d.now - c.now, c.rate) >= 1.0 - Level(m, c)
  {
    if c.cap >= 1.0 {
      RefilledExactly(m, c, cs, d);
    }
  }

  lemma RefilledExactly(m: Buckets, c: Call, cs: seq<Call>, d: Call)
    requires !Admitted(m, c) && d.key == c.key && d.rate == c.rate && d.cap == c.cap && c.cap >= 1.0
    requires Fixed(cs, c.key, c.rate, c.cap) && Count(Step(m, c), cs, c.key) == 0
    ensures Admitted(Run(Step(m, c), cs), d) <==> Refill(d.now - c.now, c.rate) >= 1.0 - Level(m, c)
  {
    var u := Run(Step(m, c), cs);
    CreditAfter(m, c);
    QuietCredit(Step(m, c), cs, c.key, c.rate, c.cap);
    AdmittedByCredit(u, d);
    Distribute(d.now, c.now, c.rate);
  }

  lemma AdmittedByCredit(m: Buckets, c: Call)
    requires c.key in m && c.cap >= 1.0
    ensures Admitted(m, c) <==> Credit(m, c.key, c.rate) + Refill(c.now, c.rate) >= 1.0
  {
    Distribute(c.now, m[c.key].last, c.rate);
  }

  // ---------- bursts ----------

  /** How many calls of a run are `key`'s. */
  function Calls(cs: seq<Call>, key: string): nat {
    if cs == [] then 0 else Calls(cs[..|cs| - 1], key) + if cs[|cs| - 1].key == key then 1 else 0
  }

  /** As many calls as are made, but no more than whole tokens fit. */
  function Fitting(calls: nat, cap: real): nat
    requires cap >= 0.0
  {
    if calls as real <= cap then calls else cap.Floor
  }

  /** The bucket of a new key after some calls at one time: full but for the tokens spent. */
  ghost predicate Spent(m: Buckets, key: string, calls: nat, cap: real, now: real)
    requires cap >= 0.0
  {
    if calls == 0 then key !in m else key in m && m[key] == Bucket(cap - Fitting(calls, cap) as real, now)
  }

  lemma SpendOne(m: Buckets, c: Call, calls: nat)
    requires c.cap >= 0.0 && Spent(m, c.key, calls, c.cap, c.now)
    ensures Spent(Step(m, c), c.key, calls + 1, c.cap, c.now)
    ensures Admitted(m, c) <==> Fitting(calls + 1, c.cap) == Fitting(calls, c.cap) + 1
    ensures !Admitted(m, c) ==> Fitting(calls + 1, c.cap) == Fitting(calls, c.cap)
  {
    assert Refill(c.now - c.now, c.rate) == 0.0;
    assert Level(m, c) == c.cap - Fitting(calls, c.cap) as real;
  }

  /** A new key starts with a full bucket: of its calls at one time, among calls of any other keys
      at any time, exactly as many are admitted as the capacity holds whole tokens. */
  lemma {:induction false} BurstExactly(m: Buckets, cs: seq<Call>, key: string, rate: real, cap: real, now: real)
    requires key !in m && Fixed(cs, key, rate, cap) && cap >= 0.0
    requires forall i :: 0 <= i < |cs| && cs[i].key == key ==> cs[i].now == now
    ensures Count(m, cs, key) == Fitting(Calls(cs, key), cap)
    ensures Spent(Run(m, cs), key, Calls(cs, key), cap, now)
  {
    if cs != [] {
      var n := |cs| - 1;
      BurstExactly(m, cs[..n], key, rate, cap, now);
      if cs[n].key == key {
        SpendOne(Run(m, cs[..n]), cs[n], Calls(cs[..n], key));
      }
    }
  }

  /** A bucket refills at its rate up to its capacity and no other way: what a key's call finds,
      told from what its last call left, whatever other keys did in between. */
  lemma {:induction false} RefillsExactly(m: Buckets, c: Call, cs: seq<Call>, d: Call)
    requires d.key == c.key && forall i :: 0 <= i < |cs| ==> cs[i].key != c.key
    ensures var left := Step(m, c)[c.key].tokens;
            var filled := left + (d.now - c.now) * d.rate;
            Level(Run(Step(m, c), cs), d) == if filled > d.cap then d.cap else filled
  {
    UntouchedBucket(Step(m, c), cs, c.key);
  }

  lemma {:induction false} UntouchedBucket(m: Buckets, cs: seq<Call>, key: string)
    requires forall i :: 0 <= i < |cs| ==> cs[i].key != key
    ensures key in Run(m, cs) <==> key in m
    ensures key in m ==> Run(m, cs)[key] == m[key]
  {
    if cs != [] {
      UntouchedBucket(m, cs[..|cs| - 1], key);
    }
  }

  // ---------- the gateway's throttle ----------

  /** The rate and capacity in force for a route's settings; none means no limit. */
  function Limits(rate: Option<real>, burst: Option<real>): Option<(real, real)> {
    if rate.None? && burst.None? then None
    else
      var r := if rate.Some? then rate.value else burst.value;
      Some((r, if burst.Some? then burst.value else Max(1.0, r)))
  }

  /** A route without rate and burst has no limit; the burst is the capacity and the rate the rate,
      each standing in for the other if that is missing, except that the capacity is never set
      below one token by a missing burst. */
  lemma LimitsExactly(rate: Option<real>, burst: Option<real>)
    ensures Limits(rate, burst).None? <==> rate.None? && burst.None?
    ensures Limits(rate, burst).Some? ==>
              var (r, c) := Limits(rate, burst).value;
              && (rate.Some? ==> r == rate.value) && (burst.Some? ==> c == burst.value)
              && (rate.None? ==> r == c) && (burst.None? ==> c == if r < 1.0 then 1.0 else r)
  {
  }

  /** A route's first calls, all at one time, are admitted as far as its burst goes. */
  lemma RouteBurst(key: string, rate: Option<real>, burst: real, cs: seq<Call>, now: real)
    requires burst >= 0.0
    requires forall i :: 0 <= i < |cs| && cs[i].key == key ==> cs[i].now == now && Some((cs[i].rate, cs[i].cap)) == Limits(rate, Some(burst))
    ensures Count(map[], cs, key) == Fitting(Calls(cs, key), burst)
  {
    LimitsExactly(rate, Some(burst));
    BurstExactly(map[], cs, key, Limits(rate, Some(burst)).value.0, burst, now);
  }

  class Throttle {
    var buckets: Buckets

    constructor ()
      ensures buckets == map[]
    {
      buckets := map[];
    }

    method Allow(key: string, rate: Option<real>, burst: Option<real>, now: real) returns (ok: bool)
      modifies this
      ensures match Limits(rate, burst)
              case None => ok && buckets == old(buckets)
              case Some((r, c)) => ok == old(Admitted(buckets, Call(key, now, r, c))) && buckets == old(Step(buckets, Call(key, now, r, c)))
    {
      if rate.None? && burst.None? {
        return true;
      }
      var r := if rate.Some? then rate.value else burst.value;
      var cap := if burst.Some? then burst.value else Max(1.0, r);
      var b := if key in buckets then buckets[key] else Bucket(cap, now);
      var tokens := Min(cap, b.tokens + Refill(now - b.last, r));
      assert tokens == Level(buckets, Call(key, now, r, cap)) by {
        assert Refill(now - now, r) == 0.0;
      }
      if tokens < 1.0 {
        buckets := buckets[key := Bucket(tokens, now)];
        return false;
      }
      buckets := buckets[key := Bucket(tokens - 1.0, now)];
      ok := true;
    }
  }

  // ---------- the tenant rate limit ----------

  const BURST_MULT: real := 4.0
  const MIN_RETRY: real := 0.001

  function TenantCall(tenant: string, rps: int, now: real): Call {
    Call(tenant, now, rps as real, rps as real * BURST_MULT)
  }

  /** A tenant's first calls, all at one time, are admitted up to four seconds' worth of its rate. */
  lemma TenantBurst(tenant: string, rps: int, cs: seq<Call>, now: real)
    requires rps > 0
    requires forall i :: 0 <= i < |cs| && cs[i].key == tenant ==> cs[i] == TenantCall(tenant, rps, now)
    ensures Count(map[], cs, tenant) == if Calls(cs, tenant) <= 4 * rps then Calls(cs, tenant) else 4 * rps
  {
    var cap := rps as real * BURST_MULT;
    assert cap == (4 * rps) as real;
    BurstExactly(map[], cs, tenant, rps as real, cap, now);
  }

  function RetryAfter(tokens: real, rps: int): real
    requires rps > 0
  {
    Max(MIN_RETRY, (1.0 - tokens) / rps as real)
  }

  class TenantLimiter {
    var buckets: Buckets

    constructor ()
      ensures buckets == map[]
    {
      buckets := map[];
    }

    method RateLimit(tenant: string, rps: int, now: real) returns (allowed: bool, retryAfter: real)
      modifies this
      ensures rps <= 0 ==> allowed && retryAfter == 0.0 && buckets == old(buckets)
      ensures rps > 0 ==> allowed == old(Admitted(buckets, TenantCall(tenant, rps, now)))
                          && buckets == old(Step(buckets, TenantCall(tenant, rps, now)))
                          && retryAfter == if allowed then 0.0 else RetryAfter(old(Level(buckets, TenantCall(tenant, rps, now))), rps)
    {
      if rps <= 0 {
        return true, 0.0;
      }
      var burst := rps as real * BURST_MULT;
      var b := if tenant in buckets then buckets[tenant] else Bucket(burst, now);
      assert Refill(now - now, rps as real) == 0.0;
      var elapsed := now - b.last;
      var tokens := Min(burst, b.tokens + Refill(elapsed, rps as real));
      if tokens >= 1.0 {
        tokens := tokens - 1.0;
        buckets := buckets[tenant := Bucket(tokens, now)];
        return true, 0.0;
      }
      retryAfter := Max(MIN_RETRY, (1.0 - tokens) / rps as real);
      buckets := buckets[tenant := Bucket(tokens, now)];
      allowed := false;
    }
  }

  lemma DivideBack(x: real, r: real, t: real)
    requires r > 0.0
    ensures t >= x / r <==> Refill(t, r) >= x
  {
    assert Refill(x / r, r) == x;
    if t >= x / r {
      Scale(t - x / r, r);
      Distribute(t, x / r, r);
    } else {
      StrictScale(x / r - t, r);
      Distribute(x / r, t, r);
    }
  }

  lemma StrictScale(x: real, r: real)
    requires x > 0.0 && r > 0.0
    ensures Refill(x, r) > 0.0
  {
  }

  lemma WaitDecides(level: real, rps: int, t: real, ok: bool)
    requires rps > 0 && (ok <==> Refill(t, rps as real) >= 1.0 - level)
    ensures t >= RetryAfter(level, rps) ==> ok
    ensures RetryAfter(level, rps) > MIN_RETRY && t < RetryAfter(level, rps) ==> !ok
  {
    DivideBack(1.0 - level, rps as real, t);
  }

  lemma RefusedCallWaits(m: Buckets, c: Call, rps: int, cs: seq<Call>, d: Call)
    requires rps > 0 && c.rate == rps as real && c.cap >= 1.0 && !Admitted(m, c)
    requires d.key == c.key && d.rate == c.rate && d.cap == c.cap
    requires Fixed(cs, c.key, c.rate, c.cap) && Count(Step(m, c), cs, c.key) == 0
    ensures d.now - c.now >= RetryAfter(Level(m, c), rps) ==> Admitted(Run(Step(m, c), cs), d)
    ensures RetryAfter(Level(m, c), rps) > MIN_RETRY && d.now - c.now < RetryAfter(Level(m, c), rps) ==> !Admitted(Run(Step(m, c), cs), d)
  {
    var level, ok := Level(m, c), Admitted(Run(Step(m, c), cs), d);
    AdmittedOnceRefilled(m, c, cs, d);
    WaitDecides(level, rps, d.now - c.now, ok);
  }

  lemma TenantCapacity(rps: int)
    requires rps > 0
    ensures rps as real * BURST_MULT >= 1.0
  {
    assert rps as real >= 1.0;
  }

  /** A refused tenant that waits for `retry_after` without being admitted in between is
      admitted then; and waiting less is not enough when the wait is above its floor. */
  lemma {:induction false} RetryAfterSuffices(m: Buckets, tenant: string, rps: int, t0: real, cs: seq<Call>, t1: real)
    requires rps > 0 && !Admitted(m, TenantCall(tenant, rps, t0))
    requires Fixed(cs, tenant, rps as real, rps as real * BURST_MULT)
    requires Count(Step(m, TenantCall(tenant, rps, t0)), cs, tenant) == 0
    ensures var wait := RetryAfter(Level(m, TenantCall(tenant, rps, t0)), rps);
            var ok := Admitted(Run(Step(m, TenantCall(tenant, rps, t0)), cs), TenantCall(tenant, rps, t1));
            && (t1 - t0 >= wait ==> ok)
            && (wait > MIN_RETRY && t1 - t0 < wait ==> !ok)
  {
    TenantCapacity(rps);
    RefusedCallWaits(m, TenantCall(tenant, rps, t0), rps, cs, TenantCall(tenant, rps, t1));
  }
}
