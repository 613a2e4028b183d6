/**
 How a shutdown ends (micro/net/server.go): exactly when it returns and when it times out, and that
 it is never stuck: from every reachable state in which a Shutdown waits, whatever the connections
 and the requests are doing, there is a way on to its regular return.
 */
module ServerDrainEnd {
  import opened Common
  import opened ServerDrain

  // ---------------------------------------------------------------- how it ended

  predicate Returned(n: nat, steps: seq<Step>, k: nat)
    requires k < |steps|
  {
    && steps[k].WaitReturns? && Exec(n, steps[..k]).wg == 0 && Exec(n, steps[..k]).shutdown.Waiting?
  }

  predicate RanOut(n: nat, steps: seq<Step>, k: nat)
    requires k < |steps|
  {
    steps[k].Timeout? && Exec(n, steps[..k]).shutdown.Waiting?
  }

  ghost predicate EverReturned(n: nat, steps: seq<Step>) {
    exists k :: 0 <= k < |steps| && Returned(n, steps, k)
  }

  ghost predicate EverRanOut(n: nat, steps: seq<Step>) {
    exists k :: 0 <= k < |steps| && RanOut(n, steps, k)
  }

  ghost predicate EverStarted(steps: seq<Step>) {
    exists k :: 0 <= k < |steps| && steps[k].StartShutdown?
  }

  lemma HistorySnoc(n: nat, steps: seq<Step>)
    requires steps != []
    ensures var front, last := steps[..|steps| - 1], |steps| - 1;
            && (EverReturned(n, steps) <==> EverReturned(n, front) || Returned(n, steps, last))
            && (EverRanOut(n, steps) <==> EverRanOut(n, front) || RanOut(n, steps, last))
            && (EverStarted(steps) <==> EverStarted(front) || steps[last].StartShutdown?)
  {
    hide Exec;
    var front, last := steps[..|steps| - 1], |steps| - 1;
    forall k | 0 <= k < last
      ensures Returned(n, steps, k) == Returned(n, front, k) && RanOut(n, steps, k) == RanOut(n, front, k)
      ensures steps[k] == front[k]
    {
      assert steps[..k] == front[..k];
    }
    assert EverReturned(n, front) ==> EverReturned(n, steps);
    assert EverRanOut(n, front) ==> EverRanOut(n, steps);
    assert EverStarted(front) ==> EverStarted(steps);
  }

  lemma ShutdownStep(s: Server, step: Step)
    requires s.closed <==> !s.shutdown.NotStarted?
    ensures var s' := Do(s, step);
            && (s'.closed <==> s.closed || step.StartShutdown?)
            && (s'.closed <==> !s'.shutdown.NotStarted?)
            && (s'.shutdown.Done? <==>
                s.shutdown.Done? || (s.shutdown.Waiting? && step.WaitReturns? && s.wg == 0))
            && (s'.shutdown.TimedOut? <==> s.shutdown.TimedOut? || (s.shutdown.Waiting? && step.Timeout?))
  {
  }

  /**
   The server is closed exactly if a Shutdown was called; that call has returned exactly if its
   wait saw the count at zero, and has timed out exactly if its deadline came while it waited.
   */
  lemma {:induction false} ShutdownEndsExactly(n: nat, steps: seq<Step>)
    ensures var s := Exec(n, steps);
            && (s.closed <==> EverStarted(steps))
            && (s.shutdown.NotStarted? <==> !EverStarted(steps))
            && (s.shutdown.Done? <==> EverReturned(n, steps))
            && (s.shutdown.TimedOut? <==> EverRanOut(n, steps))
  {
    hide Do, EverStarted, EverReturned, EverRanOut;
    if steps == [] {
      assert !EverStarted([]) && !EverReturned(n, []) && !EverRanOut(n, []) by { NothingEver(n); }
    } else {
      ShutdownEndsExactly(n, steps[..|steps| - 1]);
      HistorySnoc(n, steps);
      ShutdownStep(Exec(n, steps[..|steps| - 1]), steps[|steps| - 1]);
    }
  }

  lemma NothingEver(n: nat)
    ensures !EverStarted([]) && !EverReturned(n, []) && !EverRanOut(n, [])
  {
  }

  // ---------------------------------------------------------------- what is left to do

  /** How far a connection has come on the way a closed server sends it. */
  function Rank(p: Phase): nat {
    match p
    case Admitting(_) => 0
    case Added(_) => 1
    case Spawned => 2
    case Stored => 3
    case LoopTop => 4
    case LoopTop2 => 5
    case Reading => 6
    case GotRequest(_) => 7
    case GotRequest2(_) => 8
    case Exiting => 9
    case Drained => 10
    case _ => 11
  }

  ghost function Behind(conns: map<nat, Conn>, k: nat): set<nat> {
    set c | c in conns && Rank(conns[c].phase) < k
  }

  ghost function ConnWork(conns: map<nat, Conn>, k: nat): nat {
    if k == 0 then 0 else ConnWork(conns, k - 1) + |Behind(conns, k)|
  }

  function Left(q: Request): nat {
    match q.phase
    case Handling => 3
    case Replied => 2
    case Detached => 1
    case Finished => 0
  }

  function ReqWork(reqs: seq<Request>): nat {
    if reqs == [] then 0 else ReqWork(reqs[..|reqs| - 1]) + Left(reqs[|reqs| - 1])
  }

  lemma BehindAfter(conns: map<nat, Conn>, c: nat, k': Conn, k: nat)
    requires c in conns && Rank(conns[c].phase) < Rank(k'.phase)
    ensures var m, m' := |Behind(conns, k)|, |Behind(conns[c := k'], k)|;
            m' == if Rank(conns[c].phase) < k <= Rank(k'.phase) then m - 1 else m
  {
    hide Rank;
    var now, later := Behind(conns, k), Behind(conns[c := k'], k);
    if Rank(conns[c].phase) < k <= Rank(k'.phase) {
      assert later == now - {c};
      assert c in now;
    } else {
      assert later == now;
    }
  }

  /** A connection that moves on leaves less to do; below its old rank nothing changes. */
  lemma {:induction false} ConnWorkFalls(conns: map<nat, Conn>, c: nat, k': Conn, k: nat)
    requires c in conns && Rank(conns[c].phase) < Rank(k'.phase)
    ensures ConnWork(conns[c := k'], k) <= ConnWork(conns, k)
    ensures Rank(conns[c].phase) < k ==> ConnWork(conns[c := k'], k) < ConnWork(conns, k)
    ensures k <= Rank(conns[c].phase) ==> ConnWork(conns[c := k'], k) == ConnWork(conns, k)
  {
    hide Rank, Behind;
    if k > 0 {
      ConnWorkFalls(conns, c, k', k - 1);
      BehindAfter(conns, c, k', k);
    }
  }

  lemma {:induction false} ConnWorkSame(conns: map<nat, Conn>, c: nat, k': Conn, k: nat)
    requires c in conns && Rank(conns[c].phase) == Rank(k'.phase)
    ensures ConnWork(conns[c := k'], k) == ConnWork(conns, k)
  {
    if k > 0 {
      ConnWorkSame(conns, c, k', k - 1);
      assert Behind(conns[c := k'], k) == Behind(conns, k);
    }
  }

  lemma {:induction false} ReqWorkFalls(reqs: seq<Request>, r: nat, q: Request)
    requires r < |reqs| && Left(q) < Left(reqs[r])
    ensures ReqWork(reqs[r := q]) < ReqWork(reqs)
  {
    var last := |reqs| - 1;
    if r < last {
      ReqWorkFalls(reqs[..last], r, q);
      assert reqs[r := q][..last] == reqs[..last][r := q];
    } else {
      assert reqs[r := q][..last] == reqs[..last];
    }
  }

  // ---------------------------------------------------------------- it can always finish

  function From(s: Server, more: seq<Step>): Server
    decreases |more|
  {
    if more == [] then s else From(Do(s, more[0]), more[1..])
  }

  ghost predicate CanFinish(s: Server) {
    exists more :: From(s, more).shutdown.Done?
  }

  lemma StepsOn(s: Server, step: Step)
    requires CanFinish(Do(s, step))
    ensures CanFinish(s)
  {
    hide Do;
    var more :| From(Do(s, step), more).shutdown.Done?;
    assert ([step] + more)[1..] == more;
    assert From(s, [step] + more).shutdown.Done?;
  }

  ghost predicate Waits(s: Server) {
    Inv(s) && s.shutdown.Waiting?
  }

  lemma RankRises(s: Server, k: Conn)
    requires s.closed && Rank(k.phase) < 11 && !k.phase.Exiting?
    ensures Rank(k.phase) < Rank(NextPhase(s, k, false, false))
  {
  }

  lemma AdvanceMoves(s: Server, c: nat)
    requires c in s.conns
    ensures var k, s' := AdvanceConn(s, s.conns[c], false, false), Do(s, Advance(c, false, false));
            && s'.conns == s.conns[c := k] && s'.conns[c] == k && s'.shutdown == s.shutdown
            && k.phase == NextPhase(s, s.conns[c], false, false)
            && (!s.conns[c].phase.Added? ==> s'.reqs == s.reqs)
  {
    hide NextPhase;
  }

  /** The one move of connection c: the closed flag, or a failing read, takes it towards its end. */
  lemma Retires(s: Server, c: nat)
    requires Waits(s) && c in s.conns && Rank(s.conns[c].phase) < 11 && !s.conns[c].phase.Exiting?
    ensures var s' := Do(s, Advance(c, false, false));
            && Waits(s') && c in s'.conns && s'.conns == s.conns[c := s'.conns[c]]
            && Rank(s.conns[c].phase) < Rank(s'.conns[c].phase)
            && (!s.conns[c].phase.Added? ==> s'.reqs == s.reqs)
  {
    ClosedWhileWaiting(s);
    InvDo(s, Advance(c, false, false));
    hide Inv, Do, NextPhase, AdvanceConn;
    AdvanceMoves(s, c);
    RankRises(s, s.conns[c]);
  }

  lemma ClosedWhileWaiting(s: Server)
    requires Waits(s)
    ensures s.closed
  {
  }

  /** An exiting connection gets past its wait once no request of its own is attached. */
  lemma Leaves(s: Server, c: nat)
    requires Waits(s) && c in s.conns && s.conns[c].phase.Exiting? && OpenReqs(s.reqs) == {}
    ensures var s' := Do(s, Advance(c, false, false));
            && Waits(s') && c in s'.conns && s'.conns == s.conns[c := s'.conns[c]]
            && s'.conns[c].phase.Drained? && s'.reqs == s.reqs
  {
    InvDo(s, Advance(c, false, false));
    AdvanceMoves(s, c);
    assert s.conns[c].reqWg == 0 by {
      assert ConnOk(s, c);
      forall r | 0 <= r < |s.reqs| ensures r !in Attached(s.reqs, c) { assert r !in OpenReqs(s.reqs); }
      assert Attached(s.reqs, c) == {};
    }
    hide Inv;
  }

  lemma Proceeds(s: Server, r: nat)
    requires Waits(s) && r < |s.reqs| && !s.reqs[r].phase.Finished?
    ensures var s' := Do(s, Progress(r));
            && Waits(s') && ReqWork(s'.reqs) < ReqWork(s.reqs)
            && forall k :: ConnWork(s'.conns, k) == ConnWork(s.conns, k)
  {
    InvDo(s, Progress(r));
    hide Inv;
    var s' := Do(s, Progress(r));
    ReqWorkFalls(s.reqs, r, s'.reqs[r]);
    forall k: nat ensures ConnWork(s'.conns, k) == ConnWork(s.conns, k) {
      var c := s.reqs[r].conn;
      if c in s.conns && s'.conns != s.conns { ConnWorkSame(s.conns, c, s'.conns[c], k); }
    }
  }

  lemma NothingLeft(s: Server)
    requires Waits(s) && OpenReqs(s.reqs) == {} && Behind(s.conns, 11) == {}
    ensures CanFinish(s)
  {
    forall c | c in s.conns ensures !IsLive(s.conns[c].phase) { assert c !in Behind(s.conns, 11); }
    assert LiveConns(s.conns) == {};
    assert From(Do(s, WaitReturns), []).shutdown.Done?;
    StepsOn(s, WaitReturns);
  }

  /** Connections first, up to their exit; then the requests; then the rest of the connections. */
  lemma {:induction false} Finishes(s: Server)
    requires Waits(s)
    ensures CanFinish(s)
    decreases ConnWork(s.conns, 9), ReqWork(s.reqs), ConnWork(s.conns, 11)
  {
    hide Do, Inv, ConnWork, ReqWork, CanFinish;
    if c :| c in Behind(s.conns, 9) {
      Retires(s, c);
      var s' := Do(s, Advance(c, false, false));
      ConnWorkFalls(s.conns, c, s'.conns[c], 9);
      Finishes(s');
      StepsOn(s, Advance(c, false, false));
    } else if r :| r in OpenReqs(s.reqs) {
      Proceeds(s, r);
      Finishes(Do(s, Progress(r)));
      StepsOn(s, Progress(r));
    } else if c :| c in Behind(s.conns, 11) {
      assert c !in Behind(s.conns, 9);
      var step := Advance(c, false, false);
      if s.conns[c].phase.Exiting? { Leaves(s, c); } else { Retires(s, c); }
      ConnWorkFalls(s.conns, c, Do(s, step).conns[c], 9);
      ConnWorkFalls(s.conns, c, Do(s, step).conns[c], 11);
      Finishes(Do(s, step));
      StepsOn(s, step);
    } else {
      NothingLeft(s);
    }
  }

  lemma {:induction false} ExecFrom(n: nat, steps: seq<Step>, more: seq<Step>)
    ensures Exec(n, steps + more) == From(Exec(n, steps), more)
    decreases |more|
  {
    hide Do;
    if more == [] {
      assert steps + more == steps;
    } else {
      ExecSnoc(n, steps, more[0]);
      ExecFrom(n, steps + [more[0]], more[1..]);
      assert steps + [more[0]] + more[1..] == steps + more;
    }
  }

  /** In every reachable state a waiting Shutdown has a way on to its regular return: nothing is stuck. */
  lemma ShutdownCanAlwaysFinish(n: nat, steps: seq<Step>)
    requires Exec(n, steps).shutdown.Waiting?
    ensures exists more :: Exec(n, steps + more).shutdown.Done?
  {
    hide Do, Inv;
    InvAlways(n, steps);
    Finishes(Exec(n, steps));
    var more :| From(Exec(n, steps), more).shutdown.Done?;
    ExecFrom(n, steps, more);
    assert Exec(n, steps + more).shutdown.Done?;
  }
}
