/**
 Concurrent picks on one weighted round robin balancer (micro/net/balancer.go).
 Every thread loops over Load, perhaps Store, and CompareAndSwap; each of the three
 is one atomic step. States are immutable heap objects, so a pointer is an index
 into `heap` and the compare-and-swap compares pointers, not contents.
 */
module BalancerCas {
  import opened Common
  import opened Endpoints
  import opened Balancer

  datatype Phase =
    | Idle                                  // about to Load
    | Rebuild                               // nothing usable was loaded; about to Store a fresh state
    | Holding(ptr: nat)                     // about to CompareAndSwap from this state
    | Done(ep: Endpoint, seg: nat, at: nat) // returned ep; its commit is picks[at] of segment seg

  datatype Thread = Thread(candidates: seq<Endpoint>, phase: Phase)

  /** The commits since one Store: the state stored and the indices chosen after it. */
  datatype Segment = Segment(base: WrrState, picks: seq<nat>)

  datatype System = System(heap: seq<WrrState>, cur: Option<nat>, threads: map<nat, Thread>, log: seq<Segment>)

  datatype Step = Begin(t: nat, candidates: seq<Endpoint>) | Load(t: nat) | Store(t: nat) | Swap(t: nat)

  const INITIAL := System([], None, map[], [])

  /** A thread starts with at least two candidates of distinct addresses (one candidate never touches the state). */
  ghost predicate Startable(s: System, t: nat, candidates: seq<Endpoint>) {
    (t in s.threads ==> s.threads[t].phase.Done?) && |candidates| >= 2 && UniqueAddrs(candidates)
  }

  ghost function Do(s: System, step: Step): System
    requires Inv(s)
  {
    match step
    case Begin(t, candidates) =>
      if Startable(s, t, candidates) then s.(threads := s.threads[t := Thread(candidates, Idle)]) else s
    case Load(t) =>
      if t !in s.threads || !s.threads[t].phase.Idle? then s
      else
        var cs := s.threads[t].candidates;
        var usable := s.cur.Some? && Matches(s.heap[s.cur.value], cs);
        s.(threads := s.threads[t := Thread(cs, if usable then Holding(s.cur.value) else Rebuild)])
    case Store(t) =>
      if t !in s.threads || !s.threads[t].phase.Rebuild? then s
      else
        var cs := s.threads[t].candidates;
        var st := Start(cs);
        System(s.heap + [st], Some(|s.heap|), s.threads[t := Thread(cs, Holding(|s.heap|))], s.log + [Segment(st, [])])
    case Swap(t) =>
      if t !in s.threads || !s.threads[t].phase.Holding? then s
      else
        var cs, p := s.threads[t].candidates, s.threads[t].phase.ptr;
        if s.cur != Some(p) then s.(threads := s.threads[t := Thread(cs, Idle)])
        else
          var k, g := Choice(s.heap[p]), |s.log| - 1;
          var found := FirstWithAddr(cs, s.heap[p].addrs[k]);
          var ep := if found < |cs| then cs[found] else cs[k % |cs|];
          System(s.heap + [Advance(s.heap[p])], Some(|s.heap|),
                 s.threads[t := Thread(cs, Done(ep, g, |s.log[g].picks|))],
                 s.log[g := Segment(s.log[g].base, s.log[g].picks + [k])])
  }

  /** Where the final search of a pick stops. */
  function FirstWithAddr(cs: seq<Endpoint>, addr: string): (i: nat)
    ensures i <= |cs|
    ensures i < |cs| ==> cs[i].addr == addr
    ensures forall j :: 0 <= j < i ==> cs[j].addr != addr
  {
    if cs == [] || cs[0].addr == addr then 0 else 1 + FirstWithAddr(cs[1..], addr)
  }

  /** A segment is a sequential run of picks from a fresh state. */
  ghost predicate SequentialRun(g: Segment) {
    Fresh(g.base) && g.picks == Picks(g.base, |g.picks|)
  }

  ghost predicate ThreadOk(s: System, th: Thread) {
    && |th.candidates| >= 2 && UniqueAddrs(th.candidates)
    && (th.phase.Holding? ==>
          && th.phase.ptr < |s.heap|
          && var st := s.heap[th.phase.ptr]; |st.addrs| == |st.weights| && Matches(st, th.candidates))
    && (th.phase.Done? ==>
          && th.phase.seg < |s.log| && th.phase.at < |s.log[th.phase.seg].picks|
          && var base, k := s.log[th.phase.seg].base, s.log[th.phase.seg].picks[th.phase.at];
             && |base.addrs| == |base.weights| && Matches(base, th.candidates)
             && k < |th.candidates| && th.phase.ep == th.candidates[k])
  }

  ghost predicate Inv(s: System) {
    && (forall p :: 0 <= p < |s.heap| ==> |s.heap[p].addrs| == |s.heap[p].weights| == |s.heap[p].current| > 0)
    && (forall g :: 0 <= g < |s.log| ==> SequentialRun(s.log[g]))
    && (s.cur.None? <==> s.log == [])
    && (s.cur.Some? ==>
          && s.cur.value < |s.heap|
          && var g := s.log[|s.log| - 1]; s.heap[s.cur.value] == After(g.base, |g.picks|))
    && (forall t :: t in s.threads ==> ThreadOk(s, s.threads[t]))
    && (forall t, u :: t in s.threads && u in s.threads && t != u ==> !SameCommit(s.threads[t], s.threads[u]))
  }

  ghost predicate SameCommit(a: Thread, b: Thread) {
    a.phase.Done? && b.phase.Done? && a.phase.seg == b.phase.seg && a.phase.at == b.phase.at
  }

  /** The last segment stays a sequential run when the state it leads to is advanced once more. */
  lemma CommitExtendsRun(g: Segment)
    requires SequentialRun(g)
    ensures |g.base.weights| == |g.base.current| > 0
    ensures var k := Choice(After(g.base, |g.picks|));
            && SequentialRun(Segment(g.base, g.picks + [k]))
            && After(g.base, |g.picks| + 1) == Advance(After(g.base, |g.picks|))
  {
    hide Choice, Advance, Sum;
  }

  lemma SwapKeepsInv(s: System, t: nat)
    requires Inv(s)
    ensures Inv(Do(s, Swap(t)))
  {
    hide Choice, Advance, After, Picks, Sum, FirstWithAddr;
    if t in s.threads && s.threads[t].phase.Holding? && s.cur == Some(s.threads[t].phase.ptr) {
      var s' := Do(s, Swap(t));
      var g := s.log[|s.log| - 1];
      var p := s.cur.value;
      var cs := s.threads[t].candidates;
      assert SequentialRun(g);
      CommitExtendsRun(g);
      assert ThreadOk(s, s.threads[t]);
      ReturnsChosen(s.heap[p], cs);
      AdvanceShape(s.heap[p]);
      assert s'.heap[|s.heap|] == After(g.base, |g.picks| + 1);
      forall u | u in s'.threads ensures ThreadOk(s', s'.threads[u]) { SwapThread(s, t, u); }
    }
  }

  lemma SwapThread(s: System, t: nat, u: nat)
    requires Inv(s) && u in Do(s, Swap(t)).threads
    ensures ThreadOk(Do(s, Swap(t)), Do(s, Swap(t)).threads[u])
  {
    hide Choice, Advance, Picks, Sum, FirstWithAddr;
    assert ThreadOk(s, s.threads[u]);
    if s.cur.Some? {
      var p := s.cur.value;
      if u == t && s.threads[t].phase == Holding(p) { ReturnsChosen(s.heap[p], s.threads[t].candidates); }
    }
  }

  lemma AdvanceShape(st: WrrState)
    requires |st.addrs| == |st.weights| == |st.current| > 0
    ensures var r := Advance(st); |r.addrs| == |r.weights| == |r.current| > 0
  {
  }

  /** With distinct addresses the search returns the chosen candidate. */
  lemma ReturnsChosen(st: WrrState, cs: seq<Endpoint>)
    requires |st.addrs| == |st.weights| == |st.current| > 0
    requires Matches(st, cs) && UniqueAddrs(cs)
    ensures Choice(st) < |cs|
    ensures FirstWithAddr(cs, st.addrs[Choice(st)]) == Choice(st)
  {
    hide Choice;
    var k := Choice(st);
    assert cs[k].addr == st.addrs[k];
  }

  lemma OtherStepsKeepInv(s: System, step: Step)
    requires Inv(s) && !step.Swap?
    ensures Inv(Do(s, step))
  {
    hide Inv, Do;
    if step.Store? { StoreKeepsInv(s, step.t); } else { LoadKeepsInv(s, step); }
  }

  lemma LoadKeepsInv(s: System, step: Step)
    requires Inv(s) && (step.Begin? || step.Load?)
    ensures Inv(Do(s, step))
  {
    hide ThreadOk, SequentialRun, After;
    var s' := Do(s, step);
    forall u | u in s'.threads ensures ThreadOk(s', s'.threads[u]) { OtherThread(s, step, u); }
  }

  lemma StoreKeepsInv(s: System, t: nat)
    requires Inv(s)
    ensures Inv(Do(s, Store(t)))
  {
    assert t in s.threads ==> ThreadOk(s, s.threads[t]) && |s.threads[t].candidates| >= 2;
    var s' := Do(s, Store(t));
    hide ThreadOk, SequentialRun, After;
    if s' != s {
      EmptyRun(s'.log[|s.log|]);
      NothingPicked(s'.log[|s.log|].base);
    }
    forall u | u in s'.threads ensures ThreadOk(s', s'.threads[u]) { OtherThread(s, Store(t), u); }
  }

  lemma NothingPicked(st: WrrState)
    requires |st.weights| == |st.current| > 0
    ensures After(st, 0) == st
  {
  }

  lemma OtherThread(s: System, step: Step, u: nat)
    requires Inv(s) && !step.Swap? && u in Do(s, step).threads
    ensures ThreadOk(Do(s, step), Do(s, step).threads[u])
  {
    hide Choice, Advance, Picks, Sum, After;
    if u in s.threads { assert ThreadOk(s, s.threads[u]); }
  }

  lemma EmptyRun(g: Segment)
    requires Fresh(g.base) && g.picks == []
    ensures SequentialRun(g)
  {
  }

  ghost function Exec(steps: seq<Step>): (s: System)
    ensures Inv(s)
  {
    if steps == [] then INITIAL
    else
      var s := Exec(steps[..|steps| - 1]);
      var last := steps[|steps| - 1];
      assert Inv(Do(s, last)) by {
        if last.Swap? { SwapKeepsInv(s, last.t); } else { OtherStepsKeepInv(s, last); }
      }
      Do(s, last)
  }

  lemma RunPrefixShare(seg: Segment, k: nat, i: nat)
    requires SequentialRun(seg) && i < |seg.base.weights| && k <= |seg.picks|
    ensures seg.base.total * Count(seg.picks[..k], i) < k * seg.base.weights[i] + seg.base.total
  {
    hide Count, Picks, Sum;
    PicksPrefix(seg.base, k, |seg.picks|);
    PrefixShare(seg.base, k, i);
  }

  lemma RunWindowIsFair(seg: Segment, k: nat, i: nat)
    requires SequentialRun(seg) && i < |seg.base.weights| && 0 < seg.base.total <= k <= |seg.picks|
    ensures Count(seg.picks[k - seg.base.total..k], i) == seg.base.weights[i]
  {
    hide Count, Picks, Sum;
    PicksPrefix(seg.base, k, |seg.picks|);
    EveryWindowIsFair(seg.base, k - seg.base.total, i);
    assert seg.picks[k - seg.base.total..k] == seg.picks[..k][k - seg.base.total..];
  }

  /**
   In every interleaving, the commits between two Stores are a sequential run: at each
   prefix nobody is a full pick ahead of its share, and every full window is exactly fair.
   */
  lemma ConcurrentPicksAreFair(steps: seq<Step>, g: nat, k: nat, i: nat)
    ensures g < |Exec(steps).log| ==>
              var seg := Exec(steps).log[g];
              i < |seg.base.weights| && k <= |seg.picks| ==>
                && seg.base.total * Count(seg.picks[..k], i) < k * seg.base.weights[i] + seg.base.total
                && 0 < seg.base.total
                && (seg.base.total <= k ==> Count(seg.picks[k - seg.base.total..k], i) == seg.base.weights[i])
  {
    hide Exec, Count, Picks, Sum, After;
    if g < |Exec(steps).log| {
      var seg := Exec(steps).log[g];
      if i < |seg.base.weights| && k <= |seg.picks| {
        assert SequentialRun(seg);
        FreshIsBalanced(seg.base);
        RunPrefixShare(seg, k, i);
        if seg.base.total <= k { RunWindowIsFair(seg, k, i); }
      }
    }
  }

  /** Every pick that returned is one commit of one segment, its own, and returned that commit's endpoint. */
  lemma ReturnedPickIsCommitted(steps: seq<Step>, t: nat)
    ensures t in Exec(steps).threads && Exec(steps).threads[t].phase.Done? ==>
              var s := Exec(steps); var d := s.threads[t].phase;
              && d.seg < |s.log| && d.at < |s.log[d.seg].picks|
              && var base, k := s.log[d.seg].base, s.log[d.seg].picks[d.at];
                 && |base.addrs| == |base.weights| && Matches(base, s.threads[t].candidates)
                 && k < |s.threads[t].candidates| && d.ep == s.threads[t].candidates[k]
    ensures forall u :: t in Exec(steps).threads && u in Exec(steps).threads && u != t ==>
              !SameCommit(Exec(steps).threads[t], Exec(steps).threads[u])
  {
    hide Exec;
    if t in Exec(steps).threads { assert ThreadOk(Exec(steps), Exec(steps).threads[t]); }
  }

  // ---------------------------------------------------------------- one pick alone

  /** The lock-free steps of one pick with nothing in between. */
  ghost function Alone(s: System, t: nat, cs: seq<Endpoint>): (r: System)
    requires Inv(s)
    ensures Inv(r)
  {
    OtherStepsKeepInv(s, Begin(t, cs));
    var s1 := Do(s, Begin(t, cs));
    OtherStepsKeepInv(s1, Load(t));
    var s2 := Do(s1, Load(t));
    OtherStepsKeepInv(s2, Store(t));
    var s3 := Do(s2, Store(t));
    SwapKeepsInv(s3, t);
    Do(s3, Swap(t))
  }

  /** The state such a pick works from. */
  ghost function BaseFor(s: System, cs: seq<Endpoint>): WrrState
    requires Inv(s)
  {
    if s.cur.Some? && s.heap[s.cur.value].addrs == AddrsOf(cs) && s.heap[s.cur.value].weights == WeightsOf(cs)
    then s.heap[s.cur.value] else Start(cs)
  }

  /** It does what the balancer object does: the state of these candidates advances once and its choice is returned. */
  lemma AloneIsSequential(s: System, t: nat, cs: seq<Endpoint>)
    requires Inv(s) && Startable(s, t, cs)
    ensures var r, base := Alone(s, t, cs), BaseFor(s, cs);
            && |base.weights| == |base.current| == |cs|
            && t in r.threads && r.threads[t].phase.Done? && r.threads[t].phase.ep == cs[Choice(base)]
            && r.cur.Some? && r.heap[r.cur.value] == Advance(base)
  {
    hide Choice, Picks, Sum, After, Advance, SequentialRun, SameCommit, WeightsOf, AddrsOf;
    if s.cur.Some? { MatchesExactly(s.heap[s.cur.value], cs); }
    var base := BaseFor(s, cs);
    MatchesExactly(base, cs);
    ReturnsChosen(base, cs);
    hide FirstWithAddr, ThreadOk;
  }

  // ---------------------------------------------------------------- one candidate list

  /** The current state is for this list, and nobody is about to store another. */
  ghost predicate Settled(s: System, cs: seq<Endpoint>) {
    && s.cur.Some? && s.cur.value < |s.heap|
    && s.heap[s.cur.value].addrs == AddrsOf(cs) && s.heap[s.cur.value].weights == WeightsOf(cs)
    && forall t :: t in s.threads ==> s.threads[t].candidates == cs && !s.threads[t].phase.Rebuild?
  }

  lemma SettledStep(s: System, step: Step, cs: seq<Endpoint>)
    requires Inv(s) && Settled(s, cs) && (step.Begin? ==> step.candidates == cs)
    ensures Settled(Do(s, step), cs) && |Do(s, step).log| == |s.log|
  {
    hide Choice, Picks, Sum, After, FirstWithAddr, ThreadOk, SequentialRun, SameCommit;
    MatchesExactly(s.heap[s.cur.value], cs);
  }

  /**
   Once a state for the list is stored, picks on that list store no other: from then on all commits
   are in one segment, so the fairness of segments is the fairness of the whole rest of the run.
   */
  lemma {:induction false} OneListOneSegment(front: seq<Step>, back: seq<Step>, cs: seq<Endpoint>)
    requires forall k :: 0 <= k < |back| && back[k].Begin? ==> back[k].candidates == cs
    ensures Settled(Exec(front), cs) ==>
              Settled(Exec(front + back), cs) && |Exec(front + back).log| == |Exec(front).log|
    decreases |back|
  {
    hide Exec, Do, Settled, Inv;
    if back == [] {
      assert front + back == front;
    } else {
      var rest, last := back[..|back| - 1], back[|back| - 1];
      OneListOneSegment(front, rest, cs);
      ExecNext(front + rest, last);
      assert front + back == front + rest + [last];
      if Settled(Exec(front), cs) { SettledStep(Exec(front + rest), last, cs); }
    }
  }

  lemma ExecNext(steps: seq<Step>, last: Step)
    ensures Exec(steps + [last]) == Do(Exec(steps), last)
  {
    hide Do, Inv;
    assert (steps + [last])[..|steps|] == steps;
  }
}
