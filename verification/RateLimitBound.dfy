/**
 How many requests of one instant the limiter of web/middleware/ratelimit/ratelimit.go admits
 when requests are interleaved: at most the capacity for each bucket some request still holds
 at that instant, and there is no bound on the number of such buckets.
 */
module RateLimitBound {
  import opened Common
  import opened RateLimit
  import opened RateLimitRace

  // ---------------------------------------------------------------- at most the capacity for each bucket

  /** A take at time t that admits a request from bucket p. */
  predicate Admitting(s: System, step: Step, t: real, p: nat) {
    && step.Take? && step.now == t && step.g in s.threads && s.threads[step.g].phase == Have(p)
    && p < |s.heap| && Admits(s.heap[p], t)
  }

  /** The requests admitted from bucket p at time t during a run. */
  function AdmittedAt(l: Limits, evict: bool, steps: seq<Step>, t: real, p: nat): nat {
    if steps == [] then 0
    else
      var front := steps[..|steps| - 1];
      AdmittedAt(l, evict, front, t, p)
      + if Admitting(Exec(l, evict, front), steps[|steps| - 1], t, p) then 1 else 0
  }

  ghost predicate Passed(steps: seq<Step>, t: real) {
    exists i :: 0 <= i < |steps| && ClockOf(steps[i]).Some? && ClockOf(steps[i]).value > t
  }

  /** What a bucket has admitted at time t and what it still has. */
  ghost predicate Balance(l: Limits, s: System, t: real, p: nat, n: nat, passed: bool) {
    && n <= l.capacity
    && (p >= |s.heap| ==> n == 0)
    && (p < |s.heap| ==>
          && InRange(s.heap[p]) && s.heap[p].capacity == l.capacity as real
          && (!passed && n > 0 ==> s.heap[p].lastTime >= t && n as real + s.heap[p].tokens <= l.capacity as real))
  }

  lemma TakeBalance(l: Limits, b: Bucket, t: real, now: real, n: nat)
    requires InRange(b) && b.capacity == l.capacity as real && n <= l.capacity
    requires n > 0 ==> b.lastTime >= t && n as real + b.tokens <= l.capacity as real
    ensures var m := n + if now == t && Admits(b, t) then 1 else 0;
            && m <= l.capacity && InRange(Spend(b, now)) && Spend(b, now).capacity == b.capacity
            && (now <= t && m > 0 ==>
                  Spend(b, now).lastTime >= t && m as real + Spend(b, now).tokens <= l.capacity as real)
  {
    if now > b.lastTime { EarnedGrows(now - b.lastTime, b.rate); }
    hide Earned;
  }

  lemma SpendInRange(b: Bucket, now: real)
    requires InRange(b)
    ensures InRange(Spend(b, now)) && Spend(b, now).capacity == b.capacity
  {
    if now > b.lastTime { EarnedGrows(now - b.lastTime, b.rate); }
    hide Earned;
  }

  /** A take is the only step that changes a bucket, and it changes the one the request holds. */
  lemma HeapChanges(l: Limits, evict: bool, s: System, step: Step, p: nat)
    ensures var s' := Do(l, evict, s, step);
            && |s.heap| <= |s'.heap|
            && (p < |s.heap| ==>
                  s'.heap[p] == if step.Take? && step.g in s.threads && s.threads[step.g].phase == Have(p)
                                then Spend(s.heap[p], step.now) else s.heap[p])
            && (|s.heap| <= p < |s'.heap| ==> step.Insert? && s'.heap[p] == NewBucket(l.rate, l.capacity, step.now))
  {
    hide Spend, Admits;
  }

  lemma BalanceStep(l: Limits, evict: bool, s: System, step: Step, t: real, p: nat, n: nat, passed: bool)
    requires l.rate >= 0.0 && l.capacity >= 0 && Balance(l, s, t, p, n, passed)
    requires passed && ClockOf(step).Some? ==> ClockOf(step).value > t
    ensures Balance(l, Do(l, evict, s, step), t, p, n + if Admitting(s, step, t, p) then 1 else 0,
                    passed || (ClockOf(step).Some? && ClockOf(step).value > t))
  {
    HeapChanges(l, evict, s, step, p);
    hide Do, Spend, Admits;
    if p < |s.heap| && step.Take? && step.g in s.threads && s.threads[step.g].phase == Have(p) {
      if passed { SpendInRange(s.heap[p], step.now); } else { TakeBalance(l, s.heap[p], t, step.now, n); }
    }
  }

  /** One bucket admits at most its capacity at one instant, in every interleaving. */
  lemma {:induction false} BucketIsBounded(l: Limits, evict: bool, steps: seq<Step>, t: real, p: nat)
    requires l.rate >= 0.0 && l.capacity >= 0 && RateLimitRace.ClockRuns(steps)
    ensures Balance(l, Exec(l, evict, steps), t, p, AdmittedAt(l, evict, steps, t, p), Passed(steps, t))
  {
    hide Do, Balance, Admitting;
    if steps == [] {
      NothingYet(l, t, p);
    } else {
      var front, last := steps[..|steps| - 1], steps[|steps| - 1];
      BucketIsBounded(l, evict, front, t, p);
      PassedSnoc(steps, t);
      BalanceStep(l, evict, Exec(l, evict, front), last, t, p, AdmittedAt(l, evict, front, t, p), Passed(front, t));
    }
  }

  lemma NothingYet(l: Limits, t: real, p: nat)
    requires l.capacity >= 0
    ensures Balance(l, INITIAL, t, p, 0, false)
  {
  }

  lemma PassedSnoc(steps: seq<Step>, t: real)
    requires RateLimitRace.ClockRuns(steps) && steps != []
    ensures var front, last := steps[..|steps| - 1], steps[|steps| - 1];
            && RateLimitRace.ClockRuns(front)
            && (Passed(steps, t) <==> Passed(front, t) || (ClockOf(last).Some? && ClockOf(last).value > t))
            && (Passed(front, t) && ClockOf(last).Some? ==> ClockOf(last).value > t)
  {
    var front, last := steps[..|steps| - 1], steps[|steps| - 1];
    hide ClockOf;
    assert forall i :: 0 <= i < |front| ==> front[i] == steps[i];
    if Passed(steps, t) {
      var i :| 0 <= i < |steps| && ClockOf(steps[i]).Some? && ClockOf(steps[i]).value > t;
      if i < |front| { assert ClockOf(front[i]).value > t; }
    }
    if Passed(front, t) {
      var i :| 0 <= i < |front| && ClockOf(front[i]).Some? && ClockOf(front[i]).value > t;
      assert ClockOf(steps[i]).value > t;
    }
  }

  // ---------------------------------------------------------------- all buckets together

  /** The requests admitted at time t during a run. */
  function Admissions(l: Limits, evict: bool, steps: seq<Step>, t: real): nat {
    if steps == [] then 0
    else
      var front, last := steps[..|steps| - 1], steps[|steps| - 1];
      var s := Exec(l, evict, front);
      Admissions(l, evict, front, t)
      + if last.Take? && last.g in s.threads && s.threads[last.g].phase.Have?
           && Admitting(s, last, t, s.threads[last.g].phase.b) then 1 else 0
  }

  /** Those from the first n buckets. */
  function FromFirst(l: Limits, evict: bool, steps: seq<Step>, t: real, n: nat): nat {
    if n == 0 then 0 else FromFirst(l, evict, steps, t, n - 1) + AdmittedAt(l, evict, steps, t, n - 1)
  }

  /** How many of the first n buckets a request took from at time t. */
  function Used(l: Limits, evict: bool, steps: seq<Step>, t: real, n: nat): nat {
    if n == 0 then 0
    else Used(l, evict, steps, t, n - 1) + if AdmittedAt(l, evict, steps, t, n - 1) > 0 then 1 else 0
  }

  lemma {:induction false} FromFirstSnoc(l: Limits, evict: bool, steps: seq<Step>, t: real, n: nat)
    requires steps != []
    ensures var front, last := steps[..|steps| - 1], steps[|steps| - 1];
            var s := Exec(l, evict, front);
            FromFirst(l, evict, steps, t, n)
            == FromFirst(l, evict, front, t, n)
               + if last.Take? && last.g in s.threads && s.threads[last.g].phase.Have?
                    && s.threads[last.g].phase.b < n && Admitting(s, last, t, s.threads[last.g].phase.b) then 1 else 0
  {
    hide Exec, Admits;
    if n > 0 { FromFirstSnoc(l, evict, steps, t, n - 1); }
  }

  /** Every admission is from one bucket. */
  lemma {:induction false} AdmissionsAddUp(l: Limits, evict: bool, steps: seq<Step>, t: real, n: nat)
    requires |Exec(l, evict, steps).heap| <= n
    ensures Admissions(l, evict, steps, t) == FromFirst(l, evict, steps, t, n)
    decreases |steps|
  {
    if steps == [] {
      NoneFromFirst(l, evict, t, n);
    } else {
      var front, last := steps[..|steps| - 1], steps[|steps| - 1];
      HeapChanges(l, evict, Exec(l, evict, front), last, 0);
      hide Do, Admits;
      AdmissionsAddUp(l, evict, front, t, n);
      FromFirstSnoc(l, evict, steps, t, n);
    }
  }

  lemma {:induction false} NoneFromFirst(l: Limits, evict: bool, t: real, n: nat)
    ensures FromFirst(l, evict, [], t, n) == 0
  {
    if n > 0 { NoneFromFirst(l, evict, t, n - 1); }
  }

  lemma {:induction false} UsedBound(l: Limits, evict: bool, steps: seq<Step>, t: real, n: nat)
    requires l.rate >= 0.0 && l.capacity >= 0 && RateLimitRace.ClockRuns(steps)
    ensures FromFirst(l, evict, steps, t, n) <= l.capacity * Used(l, evict, steps, t, n)
  {
    hide Exec, AdmittedAt, RateLimitRace.ClockRuns;
    if n > 0 {
      UsedBound(l, evict, steps, t, n - 1);
      BucketIsBounded(l, evict, steps, t, n - 1);
      var u := Used(l, evict, steps, t, n - 1);
      assert l.capacity * (u + 1) == l.capacity * u + l.capacity;
    }
  }

  /** The requests admitted at one instant are at most the capacity times the buckets they took from. */
  lemma InstantIsBounded(l: Limits, evict: bool, steps: seq<Step>, t: real)
    requires l.rate >= 0.0 && l.capacity >= 0 && RateLimitRace.ClockRuns(steps)
    ensures Admissions(l, evict, steps, t) <= l.capacity * Used(l, evict, steps, t, |Exec(l, evict, steps).heap|)
  {
    hide Exec, Admissions, FromFirst, Used, RateLimitRace.ClockRuns;
    AdmissionsAddUp(l, evict, steps, t, |Exec(l, evict, steps).heap|);
    UsedBound(l, evict, steps, t, |Exec(l, evict, steps).heap|);
  }

  // ---------------------------------------------------------------- no bound on the buckets held

  /** When the i-th bucket of the address is made; the one before it has expired by then. */
  function Time(l: Limits, i: nat): real {
    if i == 0 then 0.0 else Time(l, i - 1) + l.ttl + 1.0
  }

  /** The request that finds the i-th bucket expired and waits. */
  function Watcher(i: nat): nat {
    2 * i
  }

  /** The request that makes the i-th bucket. */
  function Maker(i: nat): nat {
    2 * i + 1
  }

  lemma IdsDiffer()
    ensures forall i: nat, j: nat :: Watcher(i) == Watcher(j) ==> i == j
    ensures forall i: nat, j: nat :: Maker(i) == Maker(j) ==> i == j
    ensures forall i: nat, j: nat :: Watcher(i) != Maker(j)
  {
  }

  /**
   Bucket after bucket is made for one address. Each time, one request has looked the old bucket
   up and found it expired, and waits; another evicts it and makes the next.
   */
  function Build(l: Limits, n: nat): seq<Step> {
    if n == 0 then [] + [Read(Maker(0), IP)] + [Check(Maker(0), 0.0)] + [Insert(Maker(0), 0.0)]
    else Generation(Build(l, n - 1), Watcher(n - 1), Maker(n), Time(l, n))
  }

  function Generation(front: seq<Step>, w: nat, m: nat, now: real): seq<Step> {
    front + [Read(w, IP)] + [Check(w, now)] + [Read(m, IP)] + [Check(m, now)] + [Recheck(m)] + [Insert(m, now)]
  }

  ghost predicate Built(l: Limits, s: System, n: nat) {
    && |s.heap| == n + 1 && s.buckets == map[IP := n]
    && (forall i :: 0 <= i <= n ==> s.heap[i] == NewBucket(l.rate, l.capacity, Time(l, i)))
    && (forall i: nat :: i < n ==> Watcher(i) in s.threads && s.threads[Watcher(i)] == Thread(IP, Expired(i)))
    && (forall i: nat :: i >= n ==> Watcher(i) !in s.threads)
    && (forall i: nat :: i > n ==> Maker(i) !in s.threads)
  }

  /** One request finds the newest bucket expired. */
  lemma Watches(l: Limits, s: System, n: nat, g: nat)
    requires l.ttl > 0.0 && |s.heap| == n + 1 && s.buckets == map[IP := n] && g !in s.threads
    requires s.heap[n] == NewBucket(l.rate, l.capacity, Time(l, n))
    ensures Do(l, true, Do(l, true, s, Read(g, IP)), Check(g, Time(l, n + 1)))
         == s.(threads := s.threads[g := Thread(IP, Expired(n))])
  {
    var s1 := Do(l, true, s, Read(g, IP));
    assert s1.threads == s.threads[g := Thread(IP, Fetched(Some(n)))];
  }

  lemma Replaces(l: Limits, s: System, n: nat, g: nat, now: real)
    requires |s.heap| == n + 1 && s.buckets == map[IP := n] && g in s.threads && s.threads[g] == Thread(IP, Expired(n))
    ensures Do(l, true, Do(l, true, s, Recheck(g)), Insert(g, now))
         == System(s.heap + [NewBucket(l.rate, l.capacity, now)], map[IP := n + 1],
                   s.threads[g := Thread(IP, Have(n + 1))], s.answers)
  {
    var s1 := Do(l, true, s, Recheck(g));
    assert s1.buckets == map[];
  }

  lemma BuildStep(l: Limits, s: System, n: nat)
    requires l.ttl > 0.0 && Built(l, s, n)
    ensures var now, w, m := Time(l, n + 1), Watcher(n), Maker(n + 1);
            var s2 := Do(l, true, Do(l, true, s, Read(w, IP)), Check(w, now));
            var s4 := Do(l, true, Do(l, true, s2, Read(m, IP)), Check(m, now));
            Built(l, Do(l, true, Do(l, true, s4, Recheck(m)), Insert(m, now)), n + 1)
  {
    var now, w, m := Time(l, n + 1), Watcher(n), Maker(n + 1);
    IdsDiffer();
    hide Do, Time, Watcher, Maker;
    Watches(l, s, n, w);
    var s2 := s.(threads := s.threads[w := Thread(IP, Expired(n))]);
    Watches(l, s2, n, m);
    var s4 := s2.(threads := s2.threads[m := Thread(IP, Expired(n))]);
    Replaces(l, s4, n, m, now);
    NextBuilt(l, s, n);
  }

  lemma NextBuilt(l: Limits, s: System, n: nat)
    requires Built(l, s, n)
    ensures Built(l, System(s.heap + [NewBucket(l.rate, l.capacity, Time(l, n + 1))], map[IP := n + 1],
                            s.threads[Watcher(n) := Thread(IP, Expired(n))][Maker(n + 1) := Thread(IP, Expired(n))]
                              [Maker(n + 1) := Thread(IP, Have(n + 1))], s.answers), n + 1)
  {
    IdsDiffer();
    hide Time, Watcher, Maker, NewBucket;
  }

  lemma GenerationRuns(l: Limits, front: seq<Step>, w: nat, m: nat, now: real)
    ensures Exec(l, true, Generation(front, w, m, now))
         == var s2 := Do(l, true, Do(l, true, Exec(l, true, front), Read(w, IP)), Check(w, now));
            var s4 := Do(l, true, Do(l, true, s2, Read(m, IP)), Check(m, now));
            Do(l, true, Do(l, true, s4, Recheck(m)), Insert(m, now))
  {
    hide Do, Exec;
    ExecSnoc(l, true, front, Read(w, IP));
    ExecSnoc(l, true, front + [Read(w, IP)], Check(w, now));
    var two := front + [Read(w, IP)] + [Check(w, now)];
    ExecSnoc(l, true, two, Read(m, IP));
    ExecSnoc(l, true, two + [Read(m, IP)], Check(m, now));
    var four := two + [Read(m, IP)] + [Check(m, now)];
    ExecSnoc(l, true, four, Recheck(m));
    ExecSnoc(l, true, four + [Recheck(m)], Insert(m, now));
  }

  lemma {:induction false} BuildRuns(l: Limits, n: nat)
    requires l.ttl > 0.0
    ensures Built(l, Exec(l, true, Build(l, n)), n)
  {
    hide Do, Built, Exec, Time, Generation, Watcher, Maker;
    if n == 0 {
      FirstBucket(l);
    } else {
      BuildRuns(l, n - 1);
      BuildStep(l, Exec(l, true, Build(l, n - 1)), n - 1);
      GenerationRuns(l, Build(l, n - 1), Watcher(n - 1), Maker(n), Time(l, n));
    }
  }

  lemma FirstBucket(l: Limits)
    ensures Built(l, Exec(l, true, Build(l, 0)), 0)
  {
    var m := Maker(0);
    ExecSnoc(l, true, [], Read(m, IP));
    ExecSnoc(l, true, [] + [Read(m, IP)], Check(m, 0.0));
    ExecSnoc(l, true, [] + [Read(m, IP)] + [Check(m, 0.0)], Insert(m, 0.0));
    hide Exec;
    NoSteps(l, true);
  }

  /** Then the first k of those that wait go on, at one instant. */
  function Rush(l: Limits, n: nat, k: nat): seq<Step> {
    if k == 0 then Build(l, n) else GoesOn(Rush(l, n, k - 1), Watcher(k - 1), Time(l, n))
  }

  function GoesOn(front: seq<Step>, g: nat, now: real): seq<Step> {
    front + [Recheck(g)] + [Take(g, now)]
  }

  ghost predicate Rushed(l: Limits, s: System, n: nat, k: nat) {
    && |s.heap| == n + 1 && s.buckets == map[IP := n]
    && (forall i :: k <= i < n ==> s.heap[i] == NewBucket(l.rate, l.capacity, Time(l, i)))
    && (forall i: nat :: k <= i < n ==> Watcher(i) in s.threads && s.threads[Watcher(i)] == Thread(IP, Expired(i)))
  }

  lemma NewAdmits(l: Limits, made: real, now: real)
    requires l.capacity >= 1 && l.rate >= 0.0
    ensures Admits(NewBucket(l.rate, l.capacity, made), now)
  {
    if now > made { EarnedGrows(now - made, l.rate); }
    hide Earned;
  }

  lemma RushStep(l: Limits, s: System, n: nat, k: nat)
    requires l.capacity >= 1 && l.rate >= 0.0 && k < n && Rushed(l, s, n, k)
    ensures var s1 := Do(l, true, s, Recheck(Watcher(k)));
            Admitting(s1, Take(Watcher(k), Time(l, n)), Time(l, n), k)
            && Rushed(l, Do(l, true, s1, Take(Watcher(k), Time(l, n))), n, k + 1)
  {
    NewAdmits(l, Time(l, k), Time(l, n));
    IdsDiffer();
    hide Time, Admits, Spend, Watcher;
    var s1 := Do(l, true, s, Recheck(Watcher(k)));
    assert s1 == s.(threads := s.threads[Watcher(k) := Thread(IP, Have(k))]);
  }

  lemma {:induction false} RushRuns(l: Limits, n: nat, k: nat)
    requires l.capacity >= 1 && l.rate >= 0.0 && l.ttl > 0.0 && k <= n
    ensures Rushed(l, Exec(l, true, Rush(l, n, k)), n, k)
    ensures Admissions(l, true, Rush(l, n, k), Time(l, n)) >= k
  {
    hide Do, Rushed, Exec, Time, Admissions, Admitting, GoesOn, Watcher;
    if k == 0 {
      BuildRuns(l, n);
      BuiltIsRushed(l, Exec(l, true, Build(l, n)), n);
    } else {
      RushRuns(l, n, k - 1);
      RushStep(l, Exec(l, true, Rush(l, n, k - 1)), n, k - 1);
      GoingOn(l, Rush(l, n, k - 1), Watcher(k - 1), Time(l, n), k - 1);
    }
  }

  lemma BuiltIsRushed(l: Limits, s: System, n: nat)
    requires Built(l, s, n)
    ensures Rushed(l, s, n, 0)
  {
  }

  lemma GoingOn(l: Limits, front: seq<Step>, g: nat, now: real, p: nat)
    ensures var s1 := Do(l, true, Exec(l, true, front), Recheck(g));
            && Exec(l, true, GoesOn(front, g, now)) == Do(l, true, s1, Take(g, now))
            && Admissions(l, true, GoesOn(front, g, now), now)
               >= Admissions(l, true, front, now) + if Admitting(s1, Take(g, now), now, p) then 1 else 0
  {
    hide Do, Exec, Admissions, Admitting;
    ExecSnoc(l, true, front, Recheck(g));
    ExecSnoc(l, true, front + [Recheck(g)], Take(g, now));
    OneMore(l, front, Recheck(g), now, 0);
    OneMore(l, front + [Recheck(g)], Take(g, now), now, p);
  }

  lemma OneMore(l: Limits, front: seq<Step>, last: Step, t: real, p: nat)
    ensures Admissions(l, true, front + [last], t)
         >= Admissions(l, true, front, t) + if Admitting(Exec(l, true, front), last, t, p) then 1 else 0
  {
    hide Exec, Admits;
    assert (front + [last])[..|front|] == front;
  }

  ghost predicate UpTo(steps: seq<Step>, t: real) {
    forall i :: 0 <= i < |steps| && ClockOf(steps[i]).Some? ==> ClockOf(steps[i]).value <= t
  }

  lemma ClockSnoc(steps: seq<Step>, last: Step, t: real, now: real)
    requires RateLimitRace.ClockRuns(steps) && UpTo(steps, t) && t <= now
    requires ClockOf(last).Some? ==> ClockOf(last).value == now
    ensures RateLimitRace.ClockRuns(steps + [last]) && UpTo(steps + [last], now)
  {
    hide ClockOf;
  }

  lemma GenerationClock(front: seq<Step>, w: nat, m: nat, was: real, now: real)
    requires RateLimitRace.ClockRuns(front) && UpTo(front, was) && was <= now
    ensures RateLimitRace.ClockRuns(Generation(front, w, m, now)) && UpTo(Generation(front, w, m, now), now)
  {
    hide RateLimitRace.ClockRuns, UpTo;
    ClockSnoc(front, Read(w, IP), was, now);
    ClockSnoc(front + [Read(w, IP)], Check(w, now), now, now);
    var two := front + [Read(w, IP)] + [Check(w, now)];
    ClockSnoc(two, Read(m, IP), now, now);
    ClockSnoc(two + [Read(m, IP)], Check(m, now), now, now);
    var four := two + [Read(m, IP)] + [Check(m, now)];
    ClockSnoc(four, Recheck(m), now, now);
    ClockSnoc(four + [Recheck(m)], Insert(m, now), now, now);
  }

  lemma {:induction false} BuildClock(l: Limits, n: nat)
    requires l.ttl > 0.0
    ensures RateLimitRace.ClockRuns(Build(l, n)) && UpTo(Build(l, n), Time(l, n))
  {
    if n > 0 {
      BuildClock(l, n - 1);
      assert Time(l, n - 1) <= Time(l, n);
      hide RateLimitRace.ClockRuns, UpTo, Time, Generation;
      GenerationClock(Build(l, n - 1), Watcher(n - 1), Maker(n), Time(l, n - 1), Time(l, n));
    }
  }

  lemma {:induction false} RushClock(l: Limits, n: nat, k: nat)
    requires l.ttl > 0.0
    ensures RateLimitRace.ClockRuns(Rush(l, n, k)) && UpTo(Rush(l, n, k), Time(l, n))
  {
    hide RateLimitRace.ClockRuns, UpTo, Time;
    if k == 0 {
      BuildClock(l, n);
    } else {
      RushClock(l, n, k - 1);
      var front, now := Rush(l, n, k - 1), Time(l, n);
      ClockSnoc(front, Recheck(Watcher(k - 1)), now, now);
      ClockSnoc(front + [Recheck(Watcher(k - 1))], Take(Watcher(k - 1), now), now, now);
    }
  }

  /** With a ttl and a capacity, whatever the rate, any number of requests can be admitted at one instant. */
  lemma NoBound(l: Limits, n: nat)
    requires l.rate >= 0.0 && l.capacity >= 1 && l.ttl > 0.0
    ensures RateLimitRace.ClockRuns(Rush(l, n, n)) && Admissions(l, true, Rush(l, n, n), Time(l, n)) >= n
  {
    hide RateLimitRace.ClockRuns, Admissions, Rush, Time;
    RushClock(l, n, n);
    RushRuns(l, n, n);
  }
}
