/**
 The token bucket limiter of web/middleware/ratelimit/ratelimit.go, over exact reals
 in place of floating point. Clock readings are inputs.
 */
module RateLimit {
  import opened Common

  datatype Bucket = Bucket(capacity: real, rate: real, tokens: real, lastTime: real)

  function NewBucket(rate: real, capacity: int, now: real): Bucket {
    Bucket(capacity as real, rate, capacity as real, now)
  }

  /** Tokens earned in a span of time. */
  function Earned(elapsed: real, rate: real): real {
    elapsed * rate
  }

  lemma EarnedAdds(x: real, y: real, rate: real)
    ensures Earned(x + y, rate) == Earned(x, rate) + Earned(y, rate)
    ensures Earned(0.0, rate) == 0.0
  {
    assert (x + y) * rate == x * rate + y * rate;
  }

  lemma EarnedIs(elapsed: real, rate: real)
    ensures Earned(elapsed, rate) == rate * elapsed
  {
  }

  lemma EarnedGrows(x: real, rate: real)
    requires x >= 0.0 && rate >= 0.0
    ensures Earned(x, rate) >= 0.0
  {
  }

  /** Tokens grow with time up to the capacity; a clock that did not advance changes nothing. */
  function Refill(b: Bucket, now: real): Bucket {
    if now <= b.lastTime then b
    else
      var filled := b.tokens + Earned(now - b.lastTime, b.rate);
      b.(tokens := if filled > b.capacity then b.capacity else filled, lastTime := now)
  }

  predicate Admits(b: Bucket, now: real) {
    Refill(b, now).tokens >= 1.0
  }

  function Spend(b: Bucket, now: real): Bucket {
    var r := Refill(b, now);
    if r.tokens >= 1.0 then r.(tokens := r.tokens - 1.0) else r
  }

  ghost predicate InRange(b: Bucket) {
    b.rate >= 0.0 && 0.0 <= b.tokens <= b.capacity
  }

  class TokenBucket {
    const capacity: real
    const rate: real
    var tokens: real
    var lastTime: real

    function View(): Bucket reads this {
      Bucket(capacity, rate, tokens, lastTime)
    }

    constructor (rate: real, capacity: int, now: real)
      ensures View() == NewBucket(rate, capacity, now)
      ensures rate >= 0.0 && capacity >= 0 ==> InRange(View())
    {
      this.capacity, this.rate := capacity as real, rate;
      tokens, lastTime := capacity as real, now;
    }

    method Take(now: real) returns (allowed: bool, remaining: real)
      modifies this
      ensures var full := old(tokens) + rate * (now - old(lastTime));
              var have := if now <= old(lastTime) then old(tokens) else if full > capacity then capacity else full;
              && allowed == (have >= 1.0) && remaining == tokens == have - (if allowed then 1.0 else 0.0)
              && lastTime == if now > old(lastTime) then now else old(lastTime)
      ensures allowed == Admits(old(View()), now) && View() == Spend(old(View()), now)
      ensures old(InRange(View())) ==> InRange(View())
    {
      var elapsed := now - lastTime;
      if elapsed > 0.0 {
        if rate >= 0.0 { EarnedGrows(elapsed, rate); }
        tokens := tokens + Earned(elapsed, rate);
        if tokens > capacity {
          tokens := capacity;
        }
        lastTime := now;
      }
      if tokens >= 1.0 {
        tokens := tokens - 1.0;
        return true, tokens;
      }
      return false, tokens;
    }
  }

  // ---------------------------------------------------------------- the admission bound

  /** The bucket after requests at these clock readings, which may go backwards. */
  function After(b: Bucket, clock: seq<real>): Bucket {
    if clock == [] then b else Spend(After(b, clock[..|clock| - 1]), clock[|clock| - 1])
  }

  function Admitted(b: Bucket, clock: seq<real>): nat {
    if clock == [] then 0
    else
      var front := clock[..|clock| - 1];
      Admitted(b, front) + (if Admits(After(b, front), clock[|clock| - 1]) then 1 else 0)
  }

  /**
   One take in numbers: the bucket holds what it had plus the rate times the time passed, at most
   its capacity, and gives one of it away exactly when that is at least one.
   */
  lemma TakeInNumbers(b: Bucket, now: real)
    ensures var full := b.tokens + b.rate * (now - b.lastTime);
            var have := if now <= b.lastTime then b.tokens else if full > b.capacity then b.capacity else full;
            && (Admits(b, now) <==> have >= 1.0)
            && Spend(b, now) == Bucket(b.capacity, b.rate, if have >= 1.0 then have - 1.0 else have,
                                       if now > b.lastTime then now else b.lastTime)
  {
    EarnedIs(now - b.lastTime, b.rate);
    hide Earned;
  }

  lemma PaidFor(b: Bucket, now: real)
    requires InRange(b)
    ensures var r := Spend(b, now);
            && InRange(r) && r.rate == b.rate && r.capacity == b.capacity && r.lastTime >= b.lastTime
            && r.tokens + (if Admits(b, now) then 1.0 else 0.0) <= b.tokens + Earned(r.lastTime - b.lastTime, b.rate)
  {
    hide Earned;
    if now > b.lastTime { EarnedGrows(now - b.lastTime, b.rate); }
    EarnedAdds(0.0, 0.0, b.rate);
  }

  lemma {:induction false} Conserved(b: Bucket, clock: seq<real>)
    requires InRange(b)
    ensures var r := After(b, clock);
            && InRange(r) && r.rate == b.rate && r.capacity == b.capacity && r.lastTime >= b.lastTime
            && r.tokens + Admitted(b, clock) as real <= b.tokens + Earned(r.lastTime - b.lastTime, b.rate)
  {
    hide Spend, Admits, Earned;
    if clock == [] {
      EarnedAdds(0.0, 0.0, b.rate);
    } else {
      var front, now := clock[..|clock| - 1], clock[|clock| - 1];
      Conserved(b, front);
      var mid, end := After(b, front), After(b, clock);
      PaidFor(mid, now);
      EarnedAdds(end.lastTime - mid.lastTime, mid.lastTime - b.lastTime, b.rate);
      assert end.lastTime - b.lastTime == (end.lastTime - mid.lastTime) + (mid.lastTime - b.lastTime);
    }
  }

  /** What a request spends never exceeds what there was plus the rate times the time passed. */
  lemma SpendIsPaidFor(b: Bucket, now: real)
    requires InRange(b)
    ensures var r := Spend(b, now);
            && InRange(r) && r.rate == b.rate && r.capacity == b.capacity && r.lastTime >= b.lastTime
            && r.tokens + (if Admits(b, now) then 1.0 else 0.0) <= b.tokens + b.rate * (r.lastTime - b.lastTime)
  {
    hide Spend, Admits, Earned;
    PaidFor(b, now);
    EarnedIs(Spend(b, now).lastTime - b.lastTime, b.rate);
  }

  /** Tokens plus admissions never exceed what there was plus the rate times the time passed. */
  lemma TokensAreConserved(b: Bucket, clock: seq<real>)
    requires InRange(b)
    ensures var r := After(b, clock);
            && InRange(r) && r.rate == b.rate && r.capacity == b.capacity && r.lastTime >= b.lastTime
            && r.tokens + Admitted(b, clock) as real <= b.tokens + b.rate * (r.lastTime - b.lastTime)
  {
    hide After, Admitted, Earned;
    Conserved(b, clock);
    EarnedIs(After(b, clock).lastTime - b.lastTime, b.rate);
  }

  /** At most a full burst plus what the elapsed time allows, whatever the clock does. */
  lemma AdmissionIsBounded(b: Bucket, clock: seq<real>)
    requires InRange(b)
    ensures var r := After(b, clock);
            && 0.0 <= r.tokens <= b.capacity
            && Admitted(b, clock) as real <= b.capacity + b.rate * (r.lastTime - b.lastTime)
  {
    hide After, Admitted;
    TokensAreConserved(b, clock);
  }

  // ---------------------------------------------------------------- one bucket per client

  /** The three clock readings of one request: the expiry check, the new bucket and the take. */
  datatype Request = Request(ip: string, checked: real, made: real, taken: real)

  datatype Limits = Limits(rate: real, capacity: int, ttl: real)

  ghost predicate ClockRuns(r: Request) {
    r.checked <= r.made <= r.taken
  }

  /** With `evict`, a bucket last touched more than a positive ttl ago is replaced by a full one. */
  function BucketFor(l: Limits, buckets: map<string, Bucket>, r: Request, evict: bool): Bucket {
    if r.ip !in buckets || (evict && l.ttl > 0.0 && r.checked - buckets[r.ip].lastTime > l.ttl)
    then NewBucket(l.rate, l.capacity, r.made)
    else buckets[r.ip]
  }

  function Serve(l: Limits, buckets: map<string, Bucket>, r: Request, evict: bool): (map<string, Bucket>, bool) {
    var b := BucketFor(l, buckets, r, evict);
    (buckets[r.ip := Spend(b, r.taken)], Admits(b, r.taken))
  }

  class Limiter {
    const limits: Limits
    var buckets: map<string, Bucket>

    constructor (limits: Limits)
      ensures this.limits == limits && buckets == map[]
    {
      this.limits := limits;
      buckets := map[];
    }

    method GetOrCreateBucket(r: Request) returns (b: Bucket)
      modifies this
      ensures r.ip in old(buckets) && (limits.ttl <= 0.0 || r.checked - old(buckets)[r.ip].lastTime <= limits.ttl) ==>
                b == old(buckets)[r.ip]
      ensures r.ip !in old(buckets) || (limits.ttl > 0.0 && r.checked - old(buckets)[r.ip].lastTime > limits.ttl) ==>
                b == NewBucket(limits.rate, limits.capacity, r.made)
      ensures b == BucketFor(limits, old(buckets), r, true) && buckets == old(buckets)[r.ip := b]
    {
      var found := if r.ip in buckets then Some(buckets[r.ip]) else None;
      if found.Some? && limits.ttl > 0.0 && r.checked - found.value.lastTime > limits.ttl {
        buckets := buckets - {r.ip};
        found := None;
      }
      if found.None? {
        buckets := buckets[r.ip := NewBucket(limits.rate, limits.capacity, r.made)];
      }
      b := buckets[r.ip];
      assert buckets == old(buckets)[r.ip := b];
    }

    method Handle(r: Request) returns (allowed: bool)
      modifies this
      ensures (buckets, allowed) == Serve(limits, old(buckets), r, true)
    {
      var b := GetOrCreateBucket(r);
      allowed := Admits(b, r.taken);
      buckets := buckets[r.ip := Spend(b, r.taken)];
      assert buckets == old(buckets)[r.ip := Spend(b, r.taken)];
    }
  }

  function Run(l: Limits, rs: seq<Request>, evict: bool): (map<string, Bucket>, seq<bool>) {
    if rs == [] then (map[], [])
    else
      var (buckets, decisions) := Run(l, rs[..|rs| - 1], evict);
      var (buckets', d) := Serve(l, buckets, rs[|rs| - 1], evict);
      (buckets', decisions + [d])
  }

  ghost predicate AllInRange(l: Limits, buckets: map<string, Bucket>) {
    forall ip :: ip in buckets ==>
      InRange(buckets[ip]) && buckets[ip].rate == l.rate && buckets[ip].capacity == l.capacity as real
  }

  /** An expired bucket would be full again anyway, so replacing it changes neither decision nor state. */
  lemma EvictionChangesNothing(l: Limits, buckets: map<string, Bucket>, r: Request)
    requires l.rate >= 0.0 && l.capacity >= 0 && (l.ttl <= 0.0 || l.rate * l.ttl >= l.capacity as real)
    requires AllInRange(l, buckets) && ClockRuns(r)
    ensures Serve(l, buckets, r, true) == Serve(l, buckets, r, false)
    ensures AllInRange(l, Serve(l, buckets, r, false).0)
  {
    var b := BucketFor(l, buckets, r, false);
    assert InRange(b);
    PaidFor(b, r.taken);
    EarnedIs(l.ttl, l.rate);
    if BucketFor(l, buckets, r, true) != b {
      hide Earned;
      var full := NewBucket(l.rate, l.capacity, r.taken);
      EarnedAdds(l.ttl, r.taken - b.lastTime - l.ttl, l.rate);
      EarnedGrows(r.taken - b.lastTime - l.ttl, l.rate);
      assert l.ttl + (r.taken - b.lastTime - l.ttl) == r.taken - b.lastTime;
      assert Refill(b, r.taken) == full;
      EarnedGrows(r.taken - r.made, l.rate);
      assert Refill(NewBucket(l.rate, l.capacity, r.made), r.taken) == full;
    }
  }

  /** Lazy eviction is invisible on every sequence of requests when rate * ttl covers the capacity. */
  lemma {:induction false} EvictionIsInvisible(l: Limits, rs: seq<Request>)
    requires l.rate >= 0.0 && l.capacity >= 0 && (l.ttl <= 0.0 || l.rate * l.ttl >= l.capacity as real)
    requires AllClocksRun(rs)
    ensures Run(l, rs, true) == Run(l, rs, false)
    ensures AllInRange(l, Run(l, rs, false).0)
  {
    if rs != [] {
      EvictionIsInvisible(l, rs[..|rs| - 1]);
      EvictionChangesNothing(l, Run(l, rs[..|rs| - 1], false).0, rs[|rs| - 1]);
    }
  }

  // ---------------------------------------------------------------- and visible otherwise

  /** n requests of one client at one instant. */
  function Burst(t: real, n: nat): seq<Request> {
    seq(n, _ => Request("", t, t, t))
  }

  /** A burst at time 0 that empties the bucket, then j more requests at time t. */
  function TwoBursts(l: Limits, t: real, j: nat): seq<Request>
    requires l.capacity >= 0
  {
    Burst(0.0, l.capacity) + Burst(t, j)
  }

  function Yes(n: nat): seq<bool> {
    seq(n, _ => true)
  }

  function CountYes(ds: seq<bool>): nat {
    if ds == [] then 0 else CountYes(ds[..|ds| - 1]) + (if ds[|ds| - 1] then 1 else 0)
  }

  lemma {:induction false} CountOfYes(n: nat)
    ensures CountYes(Yes(n)) == n
  {
    if n > 0 {
      CountOfYes(n - 1);
      assert Yes(n)[..n - 1] == Yes(n - 1);
    }
  }

  ghost predicate TooShort(l: Limits) {
    l.rate >= 0.0 && l.capacity >= 1 && l.ttl > 0.0 && l.rate * l.ttl < l.capacity as real
  }

  lemma {:induction false} FirstBurst(l: Limits, k: nat, evict: bool)
    requires TooShort(l) && k <= l.capacity
    ensures Run(l, Burst(0.0, k), evict).1 == Yes(k)
    ensures k == 0 ==> Run(l, Burst(0.0, k), evict).0 == map[]
    ensures k > 0 ==>
              Run(l, Burst(0.0, k), evict).0
                  == map["" := Bucket(l.capacity as real, l.rate, (l.capacity - k) as real, 0.0)]
  {
    if k > 0 {
      FirstBurst(l, k - 1, evict);
      assert Burst(0.0, k)[..k - 1] == Burst(0.0, k - 1);
      assert Yes(k) == Yes(k - 1) + [true];
    }
  }

  lemma TwoBurstsGrow(l: Limits, t: real, j: nat)
    requires l.capacity >= 0 && j > 0
    ensures TwoBursts(l, t, j)[..|TwoBursts(l, t, j)| - 1] == TwoBursts(l, t, j - 1)
    ensures TwoBursts(l, t, j)[|TwoBursts(l, t, j)| - 1] == Request("", t, t, t)
    ensures TwoBursts(l, t, 0) == Burst(0.0, l.capacity)
  {
    assert Burst(t, j)[..j - 1] == Burst(t, j - 1);
    assert TwoBursts(l, t, 0) == Burst(0.0, l.capacity);
  }

  /** With eviction the second burst meets a full bucket. */
  lemma {:induction false} SecondBurstEvicting(l: Limits, t: real, j: nat)
    requires TooShort(l) && t > l.ttl && 0 < j <= l.capacity
    ensures Run(l, TwoBursts(l, t, j), true).1 == Yes(l.capacity + j)
    ensures Run(l, TwoBursts(l, t, j), true).0
         == map["" := Bucket(l.capacity as real, l.rate, (l.capacity - j) as real, t)]
  {
    TwoBurstsGrow(l, t, j);
    assert Yes(l.capacity + j) == Yes(l.capacity + j - 1) + [true];
    if j == 1 {
      FirstBurst(l, l.capacity, true);
    } else {
      SecondBurstEvicting(l, t, j - 1);
    }
  }

  lemma {:induction false} SecondBurstEarns(l: Limits, t: real, j: nat)
    requires TooShort(l) && t > 0.0 && Earned(t, l.rate) < l.capacity as real && j > 0
    ensures var (m, ds) := Run(l, TwoBursts(l, t, j), false);
            && m.Keys == {""} && m[""].rate == l.rate && m[""].lastTime == t && m[""].tokens >= 0.0
            && CountYes(ds) as real + m[""].tokens == l.capacity as real + Earned(t, l.rate)
  {
    EarnedGrows(t, l.rate);
    TwoBurstsGrow(l, t, j);
    var rs := TwoBursts(l, t, j);
    var (m', ds') := Run(l, TwoBursts(l, t, j - 1), false);
    var (m, ds) := Run(l, rs, false);
    assert ds[..|ds| - 1] == ds';
    hide Earned, TooShort;
    if j == 1 {
      FirstBurst(l, l.capacity, false);
      CountOfYes(l.capacity);
    } else {
      SecondBurstEarns(l, t, j - 1);
    }
  }

  /** Without eviction it meets only what the time in between has earned. */
  lemma SecondBurstKeeping(l: Limits, t: real, j: nat)
    requires TooShort(l) && t > 0.0 && l.rate * t < l.capacity as real && j > 0
    ensures var (m, ds) := Run(l, TwoBursts(l, t, j), false);
            && m.Keys == {""} && m[""].rate == l.rate && m[""].lastTime == t && m[""].tokens >= 0.0
            && CountYes(ds) as real + m[""].tokens == l.capacity as real + l.rate * t
  {
    hide Run, TwoBursts, CountYes, Earned, TooShort;
    EarnedIs(t, l.rate);
    SecondBurstEarns(l, t, j);
  }

  lemma InstantAfterTtl(l: Limits) returns (t: real)
    requires TooShort(l)
    ensures t > l.ttl && l.rate * t < l.capacity as real
  {
    if l.rate == 0.0 {
      t := l.ttl + 1.0;
    } else {
      EarnedIs(l.ttl, l.rate);
      var gap := l.capacity as real - Earned(l.ttl, l.rate);
      t := l.ttl + gap / (2.0 * l.rate);
      assert gap / (2.0 * l.rate) * l.rate == gap / 2.0;
      EarnedAdds(l.ttl, gap / (2.0 * l.rate), l.rate);
      EarnedIs(t, l.rate);
    }
  }

  /** A ttl too short to refill the bucket is visible: two bursts get different answers. */
  lemma ShortTtlIsVisible(l: Limits)
    requires TooShort(l)
    ensures exists rs :: AllClocksRun(rs) && Run(l, rs, true).1 != Run(l, rs, false).1
  {
    var t := InstantAfterTtl(l);
    var rs := TwoBursts(l, t, l.capacity);
    assert AllClocksRun(rs);
    SecondBurstEvicting(l, t, l.capacity);
    SecondBurstKeeping(l, t, l.capacity);
    CountOfYes(2 * l.capacity);
    hide Run;
    assert Run(l, rs, true).1 != Run(l, rs, false).1;
  }

  ghost predicate AllClocksRun(rs: seq<Request>) {
    forall i :: 0 <= i < |rs| ==> ClockRuns(rs[i])
  }

  /** Eviction is invisible exactly when it is off or rate * ttl covers the capacity. */
  lemma EvictionIsInvisibleExactly(l: Limits)
    requires l.rate >= 0.0 && l.capacity >= 0
    ensures (forall rs :: AllClocksRun(rs) ==> Run(l, rs, true).1 == Run(l, rs, false).1)
       <==> (l.ttl <= 0.0 || l.rate * l.ttl >= l.capacity as real)
  {
    EarnedIs(l.ttl, l.rate);
    if l.ttl <= 0.0 || l.rate * l.ttl >= l.capacity as real {
      forall rs | AllClocksRun(rs) ensures Run(l, rs, true).1 == Run(l, rs, false).1 {
        EvictionIsInvisible(l, rs);
      }
    } else {
      EarnedGrows(l.ttl, l.rate);
      ShortTtlIsVisible(l);
    }
  }
}
