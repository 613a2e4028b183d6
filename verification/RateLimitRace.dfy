/**
 Concurrent requests in web/middleware/ratelimit/ratelimit.go. getOrCreateBucket takes and
 releases its locks several times: each step below is one lock region, so a sequence of steps
 is an interleaving of any number of requests. A request that has seen an expired bucket and
 finds it replaced keeps the old one and takes from it, so two buckets serve one address.
 */
module RateLimitRace {
  import opened Common
  import opened RateLimit

  /** Where a request stands; a bucket is a position in the heap. */
  datatype Phase =
    | Fetched(found: Option<nat>)   // looked the address up
    | Expired(b: nat)               // found its bucket expired
    | Missing                       // must make a bucket
    | Have(b: nat)                  // about to take
    | Answered

  datatype Thread = Thread(ip: string, phase: Phase)

  datatype System = System(heap: seq<Bucket>, buckets: map<string, nat>, threads: map<nat, Thread>,
                           answers: map<nat, bool>)

  datatype Step =
    | Read(g: nat, ip: string)      // the lookup under the read lock
    | Check(g: nat, now: real)      // the expiry test under the bucket's lock
    | Recheck(g: nat)               // the second lookup under the write lock, and the deletion
    | Insert(g: nat, now: real)     // the insertion under the write lock
    | Take(g: nat, now: real)

  const INITIAL := System([], map[], map[], map[])

  function At(s: System, g: nat, phase: Phase): System
    requires g in s.threads
  {
    s.(threads := s.threads[g := s.threads[g].(phase := phase)])
  }

  predicate IsExpired(l: Limits, b: Bucket, now: real) {
    l.ttl > 0.0 && now - b.lastTime > l.ttl
  }

  /** A step that is not possible in this state leaves it unchanged. */
  function Do(l: Limits, evict: bool, s: System, step: Step): System {
    match step
    case Read(g, ip) =>
      if g in s.threads then s
      else s.(threads := s.threads[g := Thread(ip, Fetched(if ip in s.buckets then Some(s.buckets[ip]) else None))])
    case Check(g, now) =>
      if g !in s.threads || !s.threads[g].phase.Fetched? then s
      else
        var f := s.threads[g].phase.found;
        if f.None? then At(s, g, Missing)
        else if f.value < |s.heap| && evict && IsExpired(l, s.heap[f.value], now) then At(s, g, Expired(f.value))
        else At(s, g, Have(f.value))
    case Recheck(g) =>
      if g !in s.threads || !s.threads[g].phase.Expired? then s
      else
        var t := s.threads[g];
        if t.ip in s.buckets && s.buckets[t.ip] == t.phase.b
        then At(s, g, Missing).(buckets := s.buckets - {t.ip})
        else At(s, g, Have(t.phase.b))
    case Insert(g, now) =>
      if g !in s.threads || !s.threads[g].phase.Missing? then s
      else
        var ip := s.threads[g].ip;
        if ip in s.buckets then At(s, g, Have(s.buckets[ip]))
        else
          At(s, g, Have(|s.heap|)).(heap := s.heap + [NewBucket(l.rate, l.capacity, now)],
                                    buckets := s.buckets[ip := |s.heap|])
    case Take(g, now) =>
      if g !in s.threads || !s.threads[g].phase.Have? || s.threads[g].phase.b >= |s.heap| then s
      else
        var p := s.threads[g].phase.b;
        At(s, g, Answered).(heap := s.heap[p := Spend(s.heap[p], now)],
                            answers := s.answers[g := Admits(s.heap[p], now)])
  }

  function Exec(l: Limits, evict: bool, steps: seq<Step>): System {
    if steps == [] then INITIAL else Do(l, evict, Exec(l, evict, steps[..|steps| - 1]), steps[|steps| - 1])
  }

  lemma ExecSnoc(l: Limits, evict: bool, steps: seq<Step>, step: Step)
    ensures Exec(l, evict, steps + [step]) == Do(l, evict, Exec(l, evict, steps), step)
  {
    assert (steps + [step])[..|steps|] == steps;
  }

  function ClockOf(step: Step): Option<real> {
    match step
    case Check(_, now) => Some(now)
    case Insert(_, now) => Some(now)
    case Take(_, now) => Some(now)
    case _ => None
  }

  /** Clock readings never go back. */
  ghost predicate ClockRuns(steps: seq<Step>) {
    forall i, j :: 0 <= i < j < |steps| && ClockOf(steps[i]).Some? && ClockOf(steps[j]).Some? ==>
      ClockOf(steps[i]).value <= ClockOf(steps[j]).value
  }

  /** No request gets another answer than it would without eviction. */
  ghost predicate SameAnswers(l: Limits, steps: seq<Step>) {
    var with, without := Exec(l, true, steps).answers, Exec(l, false, steps).answers;
    forall g :: g in with && g in without ==> with[g] == without[g]
  }

  // ---------------------------------------------------------------- a request alone

  /** Every address has a bucket of its own. */
  ghost predicate Separate(s: System) {
    && (forall ip :: ip in s.buckets ==> s.buckets[ip] < |s.heap|)
    && (forall a, b :: a in s.buckets && b in s.buckets && a != b ==> s.buckets[a] != s.buckets[b])
  }

  /** The buckets by address. */
  function View(s: System): map<string, Bucket> {
    map ip | ip in s.buckets && s.buckets[ip] < |s.heap| :: s.heap[s.buckets[ip]]
  }

  /** The lock regions of one request up to the take, with nothing in between. */
  function Got(l: Limits, evict: bool, s: System, g: nat, r: Request): System {
    var s1 := Do(l, evict, Do(l, evict, s, Read(g, r.ip)), Check(g, r.checked));
    Do(l, evict, Do(l, evict, s1, Recheck(g)), Insert(g, r.made))
  }

  /** All lock regions of one request. */
  function Alone(l: Limits, evict: bool, s: System, g: nat, r: Request): System {
    Do(l, evict, Got(l, evict, s, g, r), Take(g, r.taken))
  }

  /** The address has a bucket that may be used. */
  predicate Usable(l: Limits, evict: bool, s: System, r: Request) {
    r.ip in s.buckets && s.buckets[r.ip] < |s.heap| && !(evict && IsExpired(l, s.heap[s.buckets[r.ip]], r.checked))
  }

  lemma GotUsable(l: Limits, evict: bool, s: System, g: nat, r: Request)
    requires g !in s.threads && Usable(l, evict, s, r)
    ensures Got(l, evict, s, g, r) == s.(threads := s.threads[g := Thread(r.ip, Have(s.buckets[r.ip]))])
  {
    var s0 := Do(l, evict, s, Read(g, r.ip));
    var s1 := Do(l, evict, s0, Check(g, r.checked));
    assert s1 == s.(threads := s.threads[g := Thread(r.ip, Have(s.buckets[r.ip]))]);
  }

  lemma GotNew(l: Limits, evict: bool, s: System, g: nat, r: Request)
    requires Separate(s) && g !in s.threads && !Usable(l, evict, s, r)
    ensures Got(l, evict, s, g, r)
         == System(s.heap + [NewBucket(l.rate, l.capacity, r.made)], s.buckets[r.ip := |s.heap|],
                   s.threads[g := Thread(r.ip, Have(|s.heap|))], s.answers)
  {
    var s0 := Do(l, evict, s, Read(g, r.ip));
    var s1 := Do(l, evict, s0, Check(g, r.checked));
    var seen := if r.ip in s.buckets then Expired(s.buckets[r.ip]) else Missing;
    assert s1 == s.(threads := s.threads[g := Thread(r.ip, seen)]);
    var s2 := Do(l, evict, s1, Recheck(g));
    assert s2 == s.(threads := s.threads[g := Thread(r.ip, Missing)], buckets := s.buckets - {r.ip});
    assert (s.buckets - {r.ip})[r.ip := |s.heap|] == s.buckets[r.ip := |s.heap|];
  }

  /** What a request holds before it takes. */
  lemma AloneGetsItsBucket(l: Limits, evict: bool, s: System, g: nat, r: Request)
    requires Separate(s) && g !in s.threads
    ensures var s2 := Got(l, evict, s, g, r);
            && Separate(s2) && g in s2.threads && r.ip in s2.buckets && s2.threads[g].phase == Have(s2.buckets[r.ip])
            && View(s2) == View(s)[r.ip := BucketFor(l, View(s), r, evict)] && s2.answers == s.answers
  {
    assert r.ip in s.buckets ==> r.ip in View(s) && View(s)[r.ip] == s.heap[s.buckets[r.ip]];
    assert r.ip in View(s) ==> r.ip in s.buckets;
    hide Got, Do, View, Separate;
    if Usable(l, evict, s, r) {
      GotUsable(l, evict, s, g, r);
      ViewOfSame(s, Got(l, evict, s, g, r));
      assert View(s) == View(s)[r.ip := View(s)[r.ip]];
    } else {
      GotNew(l, evict, s, g, r);
      ViewOfNew(s, Got(l, evict, s, g, r), r.ip, NewBucket(l.rate, l.capacity, r.made));
    }
  }

  lemma ViewOfSame(s: System, s': System)
    requires Separate(s) && s'.heap == s.heap && s'.buckets == s.buckets
    ensures Separate(s') && View(s') == View(s)
  {
  }

  lemma ViewOfNew(s: System, s': System, ip: string, b: Bucket)
    requires Separate(s) && s'.heap == s.heap + [b] && s'.buckets == s.buckets[ip := |s.heap|]
    ensures Separate(s') && View(s') == View(s)[ip := b]
  {
    hide View, Separate;
    NewIsSeparate(s, s', ip, b);
    var v, w := View(s'), View(s)[ip := b];
    forall a ensures (a in v <==> a in w) && (a in v ==> v[a] == w[a]) {
      ViewAt(s, a);
      ViewAt(s', a);
    }
  }

  lemma ViewAt(s: System, ip: string)
    requires Separate(s)
    ensures ip in View(s) <==> ip in s.buckets
    ensures ip in View(s) ==> s.buckets[ip] < |s.heap| && View(s)[ip] == s.heap[s.buckets[ip]]
  {
  }

  lemma NewIsSeparate(s: System, s': System, ip: string, b: Bucket)
    requires Separate(s) && s'.heap == s.heap + [b] && s'.buckets == s.buckets[ip := |s.heap|]
    ensures Separate(s')
  {
  }

  /** Alone, a request is served as by the limiter that handles one request at a time. */
  lemma AloneIsServed(l: Limits, evict: bool, s: System, g: nat, r: Request)
    requires Separate(s) && g !in s.threads
    ensures var s' := Alone(l, evict, s, g, r);
            && Separate(s') && View(s') == Serve(l, View(s), r, evict).0
            && s'.answers == s.answers[g := Serve(l, View(s), r, evict).1]
  {
    hide Got, Do, View, Spend, Admits, BucketFor, Separate;
    AloneGetsItsBucket(l, evict, s, g, r);
    TakeOwn(l, evict, Got(l, evict, s, g, r), g, r.ip, r.taken);
    var b := BucketFor(l, View(s), r, evict);
    assert View(s)[r.ip := b][r.ip := Spend(b, r.taken)] == View(s)[r.ip := Spend(b, r.taken)];
  }

  lemma TakeOwn(l: Limits, evict: bool, s: System, g: nat, ip: string, now: real)
    requires Separate(s) && g in s.threads && ip in s.buckets && s.threads[g].phase == Have(s.buckets[ip])
    ensures var s' := Do(l, evict, s, Take(g, now));
            && ip in View(s) && Separate(s') && View(s') == View(s)[ip := Spend(View(s)[ip], now)]
            && s'.answers == s.answers[g := Admits(View(s)[ip], now)]
  {
    hide Spend, Admits;
  }

  // ---------------------------------------------------------------- when nothing shows

  lemma {:induction false} NoTtlNoEviction(l: Limits, steps: seq<Step>)
    requires l.ttl <= 0.0
    ensures Exec(l, true, steps) == Exec(l, false, steps)
  {
    if steps != [] { NoTtlNoEviction(l, steps[..|steps| - 1]); }
  }

  /** With no capacity every bucket is empty and nobody is ever admitted. */
  ghost predicate AllRefused(l: Limits, s: System) {
    && (forall p :: 0 <= p < |s.heap| ==> s.heap[p].capacity == 0.0 && InRange(s.heap[p]))
    && (forall g :: g in s.answers ==> !s.answers[g])
  }

  lemma RefusedStep(l: Limits, evict: bool, s: System, step: Step)
    requires l.rate >= 0.0 && l.capacity == 0 && AllRefused(l, s)
    ensures AllRefused(l, Do(l, evict, s, step))
  {
    if step.Take? && step.g in s.threads && s.threads[step.g].phase.Have? && s.threads[step.g].phase.b < |s.heap| {
      var b := s.heap[s.threads[step.g].phase.b];
      SpendIsPaidFor(b, step.now);
      EmptyRefuses(b, step.now);
      hide Spend, Admits;
    }
  }

  lemma EmptyRefuses(b: Bucket, now: real)
    requires InRange(b) && b.capacity == 0.0
    ensures !Admits(b, now)
  {
  }

  lemma {:induction false} NoCapacityNoAnswer(l: Limits, evict: bool, steps: seq<Step>)
    requires l.rate >= 0.0 && l.capacity == 0
    ensures AllRefused(l, Exec(l, evict, steps))
  {
    if steps != [] {
      NoCapacityNoAnswer(l, evict, steps[..|steps| - 1]);
      hide Do, AllRefused;
      RefusedStep(l, evict, Exec(l, evict, steps[..|steps| - 1]), steps[|steps| - 1]);
    }
  }

  // ---------------------------------------------------------------- the run that shows it

  /** The address whose bucket two requests see expired. */
  const IP := ""

  /** A full bucket made at time 0, then k requests that look it up at time t. */
  function LookUp(l: Limits, t: real, k: nat): seq<Step>
    requires l.capacity >= 0
  {
    var maker := l.capacity + 1;
    if k == 0 then [Read(maker, IP), Check(maker, 0.0), Insert(maker, 0.0)]
    else LookUp(l, t, k - 1) + [Read(k - 1, IP)] + [Check(k - 1, t)]
  }

  /** One request more than the bucket has tokens looks it up; then k of them go on and take. */
  function Race(l: Limits, t: real, k: nat): seq<Step>
    requires l.capacity >= 0
  {
    if k == 0 then LookUp(l, t, l.capacity + 1)
    else Race(l, t, k - 1) + [Recheck(k - 1)] + [Insert(k - 1, t)] + [Take(k - 1, t)]
  }

  /** The bucket made at time 0, after n of its tokens have been taken at time t. */
  function Drained(l: Limits, t: real, n: nat): Bucket {
    if n == 0 then NewBucket(l.rate, l.capacity, 0.0)
    else Bucket(l.capacity as real, l.rate, (l.capacity - n) as real, t)
  }

  lemma DrainedTakes(l: Limits, t: real, n: nat)
    requires l.rate >= 0.0 && t > 0.0 && n <= l.capacity
    ensures Admits(Drained(l, t, n), t) <==> n < l.capacity
    ensures 0 < l.capacity ==> Spend(Drained(l, t, n), t) == Drained(l, t, if n < l.capacity then n + 1 else n)
  {
    EarnedGrows(t, l.rate);
    hide Earned;
  }

  /** The numbers below n. */
  function Below(n: nat): (s: set<nat>)
    ensures forall g: nat :: g in s <==> g < n
  {
    if n == 0 then {} else Below(n - 1) + {n - 1}
  }

  /** All requests up to the n-th answered, the others waiting; the maker never takes. */
  function Threads(l: Limits, looked: nat, answered: nat, waiting: Phase): map<nat, Thread>
    requires l.capacity >= 0
  {
    (map g | g in Below(looked) :: Thread(IP, if g < answered then Answered else waiting))
    [l.capacity + 1 := Thread(IP, Have(0))]
  }

  /** The first k requests answered: yes below the limit, no from there on. */
  function Answers(k: nat, limit: nat): map<nat, bool> {
    map g | g in Below(k) :: g < limit
  }

  function Waiting(evict: bool): Phase {
    if evict then Expired(0) else Have(0)
  }

  function LookedUp(l: Limits, evict: bool, k: nat): System
    requires l.capacity >= 0
  {
    System([Drained(l, 0.0, 0)], map[IP := 0], Threads(l, k, 0, Waiting(evict)), map[])
  }

  lemma LookUpStart(l: Limits, t: real, evict: bool)
    requires l.capacity >= 0
    ensures Exec(l, evict, LookUp(l, t, 0)) == LookedUp(l, evict, 0)
  {
    var maker := l.capacity + 1;
    var steps := [Read(maker, IP), Check(maker, 0.0), Insert(maker, 0.0)];
    assert steps == ([] + [Read(maker, IP)]) + [Check(maker, 0.0)] + [Insert(maker, 0.0)];
    ExecSnoc(l, evict, [], Read(maker, IP));
    ExecSnoc(l, evict, [] + [Read(maker, IP)], Check(maker, 0.0));
    ExecSnoc(l, evict, [] + [Read(maker, IP)] + [Check(maker, 0.0)], Insert(maker, 0.0));
    hide Exec;
    assert Exec(l, evict, []) == INITIAL by { NoSteps(l, evict); }
    assert Threads(l, 0, 0, Waiting(evict)) == map[maker := Thread(IP, Have(0))];
  }

  lemma NoSteps(l: Limits, evict: bool)
    ensures Exec(l, evict, []) == INITIAL
  {
  }

  lemma {:induction false} LookUpRuns(l: Limits, t: real, evict: bool, k: nat)
    requires l.capacity >= 0 && l.ttl > 0.0 && t > l.ttl && k <= l.capacity + 1
    ensures Exec(l, evict, LookUp(l, t, k)) == LookedUp(l, evict, k)
  {
    hide Exec, Do, LookedUp, Threads, Below;
    if k == 0 {
      LookUpStart(l, t, evict);
    } else {
      LookUpRuns(l, t, evict, k - 1);
      var front := LookUp(l, t, k - 1);
      ExecSnoc(l, evict, front, Read(k - 1, IP));
      ExecSnoc(l, evict, front + [Read(k - 1, IP)], Check(k - 1, t));
      LookUpStep(l, t, evict, k - 1);
    }
  }

  lemma LookUpStep(l: Limits, t: real, evict: bool, k: nat)
    requires l.capacity >= 0 && l.ttl > 0.0 && t > l.ttl && k <= l.capacity
    ensures Do(l, evict, Do(l, evict, LookedUp(l, evict, k), Read(k, IP)), Check(k, t)) == LookedUp(l, evict, k + 1)
  {
    var s := LookedUp(l, evict, k);
    var s2 := Do(l, evict, Do(l, evict, s, Read(k, IP)), Check(k, t));
    assert s2.threads == s.threads[k := Thread(IP, Waiting(evict))];
    assert s2.threads == Threads(l, k + 1, 0, Waiting(evict));
  }

  /** With eviction the first request takes from a new bucket and the others from the old one. */
  function Raced(l: Limits, t: real, k: nat): System
    requires l.capacity >= 0
  {
    if k == 0 then LookedUp(l, true, l.capacity + 1)
    else
      System([Drained(l, t, k - 1), Bucket(l.capacity as real, l.rate, (l.capacity - 1) as real, t)], map[IP := 1],
             Threads(l, l.capacity + 1, k, Expired(0)), Answers(k, l.capacity + 1))
  }

  /** Without eviction all take from the one bucket, and one of them is refused. */
  function Queued(l: Limits, t: real, k: nat): System
    requires l.capacity >= 0
  {
    System([Drained(l, t, if k <= l.capacity then k else l.capacity)], map[IP := 0],
           Threads(l, l.capacity + 1, k, Have(0)), Answers(k, l.capacity))
  }

  lemma AnswersGrow(k: nat, limit: nat)
    ensures Answers(k, limit)[k := k < limit] == Answers(k + 1, limit)
  {
  }

  lemma ThreadAt(l: Limits, k: nat, waiting: Phase)
    requires l.capacity >= 0 && k <= l.capacity
    ensures var ts := Threads(l, l.capacity + 1, k, waiting);
            && k in ts && ts[k] == Thread(IP, waiting)
            && ts[k := Thread(IP, Answered)] == Threads(l, l.capacity + 1, k + 1, waiting)
  {
  }

  /** The first request removes the old bucket and makes a new one. */
  lemma FirstOfRace(l: Limits, t: real)
    requires l.capacity >= 1 && l.rate >= 0.0
    ensures Do(l, true, Do(l, true, Do(l, true, Raced(l, t, 0), Recheck(0)), Insert(0, t)), Take(0, t))
         == Raced(l, t, 1)
  {
    hide Threads;
    ThreadAt(l, 0, Expired(0));
    var s1 := Do(l, true, Raced(l, t, 0), Recheck(0));
    assert s1.buckets == map[];
    var s2 := Do(l, true, s1, Insert(0, t));
    assert s2.heap == [Drained(l, t, 0), NewBucket(l.rate, l.capacity, t)] && s2.buckets == map[IP := 1];
    assert s2.threads[0].phase == Have(1);
    var s3 := Do(l, true, s2, Take(0, t));
    assert s3.threads == Raced(l, t, 0).threads[0 := Thread(IP, Answered)];
    assert s3.heap == Raced(l, t, 1).heap;
    AnswersGrow(0, l.capacity + 1);
    assert Answers(0, l.capacity + 1) == map[];
  }

  lemma OldIsDrained(a: Bucket, b: Bucket, c: Bucket)
    ensures [a, b][0 := c] == [c, b]
  {
  }

  lemma LaterKeepsOld(l: Limits, t: real, k: nat)
    requires l.capacity >= 1 && 0 < k <= l.capacity
    ensures var s := Raced(l, t, k);
            Do(l, true, Do(l, true, s, Recheck(k)), Insert(k, t)) == s.(threads := s.threads[k := Thread(IP, Have(0))])
  {
    hide Drained, Threads, Answers;
    ThreadAt(l, k, Expired(0));
  }

  /** Every later one finds it gone and takes from it all the same. */
  lemma LaterInRace(l: Limits, t: real, k: nat)
    requires l.capacity >= 1 && l.rate >= 0.0 && t > 0.0 && 0 < k <= l.capacity
    ensures Do(l, true, Do(l, true, Do(l, true, Raced(l, t, k), Recheck(k)), Insert(k, t)), Take(k, t))
         == Raced(l, t, k + 1)
  {
    DrainedTakes(l, t, k - 1);
    LaterKeepsOld(l, t, k);
    hide Admits, Spend, Drained, Threads, Answers;
    AnswersGrow(k, l.capacity + 1);
    ThreadAt(l, k, Expired(0));
    var s := Raced(l, t, k);
    var s1 := s.(threads := s.threads[k := Thread(IP, Have(0))]);
    OldIsDrained(s.heap[0], s.heap[1], Drained(l, t, k));
    assert Do(l, true, s1, Take(k, t)).threads == s.threads[k := Thread(IP, Answered)];
  }

  lemma QueueStep(l: Limits, t: real, k: nat)
    requires l.capacity >= 1 && l.rate >= 0.0 && t > 0.0 && k <= l.capacity
    ensures Do(l, false, Do(l, false, Do(l, false, Queued(l, t, k), Recheck(k)), Insert(k, t)), Take(k, t))
         == Queued(l, t, k + 1)
  {
    DrainedTakes(l, t, k);
    hide Admits, Spend, Drained, Threads, Answers;
    AnswersGrow(k, l.capacity);
    var s := Queued(l, t, k);
    ThreadAt(l, k, Have(0));
    assert Do(l, false, Do(l, false, s, Recheck(k)), Insert(k, t)) == s;
    var s3 := Do(l, false, s, Take(k, t));
  }

  lemma {:induction false} RaceRuns(l: Limits, t: real, k: nat)
    requires l.capacity >= 1 && l.rate >= 0.0 && l.ttl > 0.0 && t > l.ttl && k <= l.capacity + 1
    ensures Exec(l, true, Race(l, t, k)) == Raced(l, t, k)
  {
    hide Exec, Do, LookUp, LookedUp, Threads, Below, Drained;
    if k == 0 {
      LookUpRuns(l, t, true, l.capacity + 1);
    } else {
      hide Raced;
      RaceRuns(l, t, k - 1);
      RaceBlock(l, t, true, k);
      if k == 1 { FirstOfRace(l, t); } else { LaterInRace(l, t, k - 1); }
    }
  }

  lemma {:induction false} QueueRuns(l: Limits, t: real, k: nat)
    requires l.capacity >= 1 && l.rate >= 0.0 && l.ttl > 0.0 && t > l.ttl && k <= l.capacity + 1
    ensures Exec(l, false, Race(l, t, k)) == Queued(l, t, k)
  {
    hide Exec, Do, LookUp, LookedUp, Queued, Threads, Below;
    if k == 0 {
      LookUpRuns(l, t, false, l.capacity + 1);
      NobodyAnswered(l, t);
    } else {
      QueueRuns(l, t, k - 1);
      RaceBlock(l, t, false, k);
      QueueStep(l, t, k - 1);
    }
  }

  lemma NobodyAnswered(l: Limits, t: real)
    requires l.capacity >= 0
    ensures LookedUp(l, false, l.capacity + 1) == Queued(l, t, 0)
  {
    assert Queued(l, t, 0).answers == map[];
  }

  lemma RaceBlock(l: Limits, t: real, evict: bool, k: nat)
    requires l.capacity >= 1 && 0 < k
    ensures Exec(l, evict, Race(l, t, k))
         == var s := Exec(l, evict, Race(l, t, k - 1));
            Do(l, evict, Do(l, evict, Do(l, evict, s, Recheck(k - 1)), Insert(k - 1, t)), Take(k - 1, t))
  {
    var front := Race(l, t, k - 1);
    ExecSnoc(l, evict, front, Recheck(k - 1));
    ExecSnoc(l, evict, front + [Recheck(k - 1)], Insert(k - 1, t));
    ExecSnoc(l, evict, front + [Recheck(k - 1)] + [Insert(k - 1, t)], Take(k - 1, t));
  }

  // ---------------------------------------------------------------- its clock

  /** Readings of 0, then readings of t. */
  ghost predicate TwoTimes(steps: seq<Step>, t: real, cut: nat) {
    forall i :: 0 <= i < |steps| && ClockOf(steps[i]).Some? ==> ClockOf(steps[i]).value == if i < cut then 0.0 else t
  }

  lemma {:induction false} LookUpClock(l: Limits, t: real, k: nat)
    requires l.capacity >= 0
    ensures |LookUp(l, t, k)| >= 3 && TwoTimes(LookUp(l, t, k), t, 3)
  {
    if k > 0 { LookUpClock(l, t, k - 1); }
  }

  lemma {:induction false} RaceClock(l: Limits, t: real, k: nat)
    requires l.capacity >= 0 && t >= 0.0
    ensures |Race(l, t, k)| >= 3 && TwoTimes(Race(l, t, k), t, 3) && ClockRuns(Race(l, t, k))
  {
    if k == 0 { LookUpClock(l, t, l.capacity + 1); } else { RaceClock(l, t, k - 1); }
  }

  /** With a ttl and a capacity, one request more than the capacity is admitted at one instant, whatever the rate. */
  lemma RaceAdmitsOneTooMany(l: Limits)
    requires l.rate >= 0.0 && l.capacity >= 1 && l.ttl > 0.0
    ensures var steps, n := Race(l, l.ttl + 1.0, l.capacity + 1), l.capacity;
            && ClockRuns(steps)
            && (forall g: nat :: g <= n ==> g in Exec(l, true, steps).answers && Exec(l, true, steps).answers[g])
            && n in Exec(l, false, steps).answers && !Exec(l, false, steps).answers[n]
  {
    hide Exec, Race, Raced, Queued;
    var t, n := l.ttl + 1.0, l.capacity;
    RaceClock(l, t, n + 1);
    RaceRuns(l, t, n + 1);
    QueueRuns(l, t, n + 1);
    RacedAnswers(l, t);
  }

  lemma RacedAnswers(l: Limits, t: real)
    requires l.capacity >= 0
    ensures var a := Raced(l, t, l.capacity + 1).answers; forall g: nat :: g in a <==> g <= l.capacity
    ensures var a := Raced(l, t, l.capacity + 1).answers; forall g: nat :: g in a ==> a[g]
    ensures var q := Queued(l, t, l.capacity + 1).answers; l.capacity in q && !q[l.capacity]
  {
    hide Threads, Drained;
  }

  /** Under concurrency eviction is invisible if and only if it is off or there is nothing to take. */
  lemma EvictionIsInvisibleExactly(l: Limits)
    requires l.rate >= 0.0 && l.capacity >= 0
    ensures (forall steps :: ClockRuns(steps) ==> SameAnswers(l, steps)) <==> (l.ttl <= 0.0 || l.capacity == 0)
  {
    hide Exec;
    if l.ttl <= 0.0 {
      forall steps ensures SameAnswers(l, steps) { NoTtlNoEviction(l, steps); }
    } else if l.capacity == 0 {
      forall steps ensures SameAnswers(l, steps) {
        NoCapacityNoAnswer(l, true, steps);
        NoCapacityNoAnswer(l, false, steps);
      }
    } else {
      RaceAdmitsOneTooMany(l);
      assert !SameAnswers(l, Race(l, l.ttl + 1.0, l.capacity + 1));
    }
  }
}
