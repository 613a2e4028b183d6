/**
 Serving and draining (micro/net/server.go). Every step is one atomic operation of one
 goroutine: the accept loop, a connection's read loop, a request handler or Shutdown.
 Reads, writes and handlers succeed or fail as they like. A connection's loop walks
 through the phases below; the two halves of each `closed || draining` test are
 separate steps, because the flags can change in between.
 */
module ServerDrain {
  import opened Common

  datatype Phase =
    | Slotted       // has its semaphore slot, not counted in wg yet
    | Spawned       // counted in wg, goroutine not started
    | Stored        // slot published in conns
    | LoopTop | LoopTop2          // first and second half of the test at the loop head
    | Reading
    | GotRequest(oneWay: bool) | GotRequest2(oneWay: bool)   // the two halves of the test before admission
    | Admitting(oneWay: bool)     // passed the test; the rate limiter decides
    | Added(oneWay: bool)         // reqWg counted, wg not yet
    | Exiting       // loop left; waiting for reqWg
    | Drained       // reqWg reached zero
    | Uncounted     // wg.Done ran
    | Released      // semaphore slot given back
    | Closed        // conn.Close ran

  datatype Conn = Conn(phase: Phase, draining: bool, reqWg: int, forced: bool, late: nat)

  datatype ReqPhase = Handling | Replied | Detached | Finished   // Detached: reqWg.Done ran; Finished: wg.Done ran

  datatype Request = Request(conn: nat, oneWay: bool, phase: ReqPhase, replies: nat)

  datatype Shutdown = NotStarted | Waiting | Done | TimedOut

  datatype Server = Server(maxConns: nat, closed: bool, wg: int, sem: int, conns: map<nat, Conn>,
                           reqs: seq<Request>, shutdown: Shutdown, early: nat)   // early: Shutdowns that did not wait

  datatype Step =
    | Accept(c: nat)
    | Advance(c: nat, oneWay: bool, ok: bool)  // one step of connection c's goroutine; oneWay and ok are what it meets
    | Heartbeat(c: nat)                        // the frame read is not a request
    | Limited(c: nat)                          // the rate limiter refuses
    | Progress(r: nat)                         // one step of request r's goroutine
    | StartShutdown
    | ShutdownAgain                            // a Shutdown that finds closed already set
    | BeginDrain(c: nat)
    | WaitReturns
    | Timeout
    | ForceClose(c: nat)

  function Initial(maxConns: nat): Server {
    Server(maxConns, false, 0, 0, map[], [], NotStarted, 0)
  }

  /** The next phase of a connection goroutine, its own counters aside. */
  function NextPhase(s: Server, k: Conn, oneWay: bool, ok: bool): Phase {
    match k.phase
    case Slotted => Spawned
    case Spawned => Stored
    case Stored => if s.closed then Exiting else LoopTop
    case LoopTop => if s.closed then Exiting else LoopTop2
    case LoopTop2 => if k.draining then Exiting else Reading
    case Reading => if ok then GotRequest(oneWay) else Exiting
    case GotRequest(w) => if k.draining then Exiting else GotRequest2(w)
    case GotRequest2(w) => if s.closed then Exiting else Admitting(w)
    case Admitting(w) => Added(w)
    case Added(_) => LoopTop
    case Exiting => if k.reqWg == 0 then Drained else Exiting
    case Drained => Uncounted
    case Uncounted => Released
    case Released => Closed
    case Closed => Closed
  }

  /** Every exit that saw a flag set marks the slot as draining. */
  function AdvanceConn(s: Server, k: Conn, oneWay: bool, ok: bool): Conn {
    var p := NextPhase(s, k, oneWay, ok);
    Conn(p,
         k.draining || (p.Exiting? && (k.phase.Stored? || k.phase.LoopTop? || k.phase.LoopTop2?)),
         if k.phase.Admitting? then k.reqWg + 1 else k.reqWg,
         k.forced,
         if k.phase.Added? && s.closed then k.late + 1 else k.late)
  }

  function ProgressOf(q: Request): Request {
    match q.phase
    case Handling => q.(phase := Replied, replies := if q.oneWay then 0 else q.replies + 1)
    case Replied => q.(phase := Detached)
    case Detached => q.(phase := Finished)
    case Finished => q
  }

  function Put(s: Server, c: nat, k: Conn): Server {
    s.(conns := s.conns[c := k])
  }

  /** The slot is in the map that Shutdown walks. */
  predicate Published(p: Phase) {
    !p.Slotted? && !p.Spawned?
  }

  /** A step that is not possible in this state leaves it unchanged. */
  function Do(s: Server, step: Step): Server {
    match step
    case Accept(c) =>
      if c in s.conns || s.sem >= s.maxConns then s
      else Put(s.(sem := s.sem + 1), c, Conn(Slotted, false, 0, false, 0))
    case Advance(c, oneWay, ok) =>
      if c !in s.conns then s
      else
        var k := s.conns[c];
        var s' := Put(s, c, AdvanceConn(s, k, oneWay, ok));
        if k.phase.Slotted? then s'.(wg := s.wg + 1)
        else if k.phase.Added? then s'.(wg := s.wg + 1, reqs := s.reqs + [Request(c, k.phase.oneWay, Handling, 0)])
        else if k.phase.Drained? then s'.(wg := s.wg - 1)
        else if k.phase.Uncounted? then s'.(sem := s.sem - 1)
        else s'
    case Heartbeat(c) =>
      if c in s.conns && s.conns[c].phase.Reading? then Put(s, c, s.conns[c].(phase := LoopTop)) else s
    case Limited(c) =>
      if c in s.conns && s.conns[c].phase.Admitting? then Put(s, c, s.conns[c].(phase := LoopTop)) else s
    case Progress(r) =>
      if r >= |s.reqs| then s
      else
        var q := s.reqs[r];
        var s' := s.(reqs := s.reqs[r := ProgressOf(q)]);
        if q.phase.Replied? && q.conn in s.conns
        then Put(s', q.conn, s.conns[q.conn].(reqWg := s.conns[q.conn].reqWg - 1))
        else if q.phase.Detached? then s'.(wg := s.wg - 1)
        else s'
    case StartShutdown => if s.closed then s else s.(closed := true, shutdown := Waiting)
    case ShutdownAgain => if s.closed then s.(early := s.early + 1) else s
    case BeginDrain(c) =>
      if c in s.conns && s.closed && Published(s.conns[c].phase) then Put(s, c, s.conns[c].(draining := true)) else s
    case WaitReturns => if s.shutdown.Waiting? && s.wg == 0 then s.(shutdown := Done) else s
    case Timeout => if s.shutdown.Waiting? then s.(shutdown := TimedOut) else s
    case ForceClose(c) =>
      if c in s.conns && s.shutdown.TimedOut? && Published(s.conns[c].phase)
      then Put(s, c, s.conns[c].(forced := true)) else s
  }

  function Exec(maxConns: nat, steps: seq<Step>): Server {
    if steps == [] then Initial(maxConns) else Do(Exec(maxConns, steps[..|steps| - 1]), steps[|steps| - 1])
  }

  // ---------------------------------------------------------------- what is counted

  predicate IsLive(p: Phase) {
    !p.Slotted? && !p.Uncounted? && !p.Released? && !p.Closed?
  }

  predicate HasSlot(p: Phase) {
    !p.Released? && !p.Closed?
  }

  /** Past the wait for the connection's own requests, or before all of them. */
  predicate PastWait(p: Phase) {
    p.Drained? || !IsLive(p)
  }

  predicate Serving(p: Phase) {
    !p.Spawned? && !p.Stored? && !p.Exiting? && !PastWait(p)
  }

  ghost function LiveConns(conns: map<nat, Conn>): set<nat> { set c | c in conns && IsLive(conns[c].phase) }
  ghost function Slots(conns: map<nat, Conn>): set<nat> { set c | c in conns && HasSlot(conns[c].phase) }
  ghost function OpenReqs(reqs: seq<Request>): set<nat> { set r | 0 <= r < |reqs| && !reqs[r].phase.Finished? }

  predicate Unattached(q: Request) { q.phase.Detached? || q.phase.Finished? }

  /** The requests of connection c whose reply has not been attempted and released yet. */
  ghost function Attached(reqs: seq<Request>, c: nat): set<nat> {
    set r | 0 <= r < |reqs| && reqs[r].conn == c && !Unattached(reqs[r])
  }

  ghost predicate ReqOk(s: Server, q: Request) {
    && q.conn in s.conns
    && q.replies == (if q.oneWay || q.phase.Handling? then 0 else 1)
  }

  ghost predicate ConnOk(s: Server, c: nat)
    requires c in s.conns
  {
    var k := s.conns[c];
    && k.reqWg == |Attached(s.reqs, c)| + (if k.phase.Added? then 1 else 0)
    && (PastWait(k.phase) ==> Attached(s.reqs, c) == {})
    && (!s.closed ==> k.late == 0)
    && k.late <= 1 && (k.late == 1 ==> !k.phase.Admitting? && !k.phase.Added?)
    && (k.forced ==> s.shutdown.TimedOut?)
    && (s.shutdown.Done? ==> !Serving(k.phase))
  }

  ghost predicate Inv(s: Server) {
    && s.wg == |LiveConns(s.conns)| + |OpenReqs(s.reqs)|
    && s.sem == |Slots(s.conns)| <= s.maxConns
    && (forall r :: 0 <= r < |s.reqs| ==> ReqOk(s, s.reqs[r]))
    && (forall c :: c in s.conns ==> ConnOk(s, c))
    && (s.closed <==> !s.shutdown.NotStarted?)
    && (s.shutdown.Done? ==> OpenReqs(s.reqs) == {})
  }

  // ---------------------------------------------------------------- how the counts change

  function One(b: bool): int {
    if b then 1 else 0
  }

  lemma LiveAfterChange(conns: map<nat, Conn>, c: nat, k: Conn)
    requires c in conns
    ensures |LiveConns(conns[c := k])| == |LiveConns(conns)| - One(IsLive(conns[c].phase)) + One(IsLive(k.phase))
  {
    var conns', live := conns[c := k], LiveConns(conns);
    assert LiveConns(conns') == if IsLive(k.phase) then live + {c} else live - {c};
    assert c in live <==> IsLive(conns[c].phase);
  }

  lemma SlotsAfterChange(conns: map<nat, Conn>, c: nat, k: Conn)
    requires c in conns
    ensures |Slots(conns[c := k])| == |Slots(conns)| - One(HasSlot(conns[c].phase)) + One(HasSlot(k.phase))
  {
    var conns', slots := conns[c := k], Slots(conns);
    assert Slots(conns') == if HasSlot(k.phase) then slots + {c} else slots - {c};
    assert c in slots <==> HasSlot(conns[c].phase);
  }

  lemma ConnAddIdle(conns: map<nat, Conn>, c: nat, k: Conn)
    requires c !in conns && !IsLive(k.phase)
    ensures LiveConns(conns[c := k]) == LiveConns(conns)
  {
  }

  lemma ConnAddSlot(conns: map<nat, Conn>, c: nat, k: Conn)
    requires c !in conns && HasSlot(k.phase)
    ensures |Slots(conns[c := k])| == |Slots(conns)| + 1
  {
    var conns', slots := conns[c := k], Slots(conns);
    forall d ensures d in Slots(conns') <==> d in slots || d == c {}
    assert Slots(conns') == slots + {c};
    assert c !in slots;
  }

  lemma OpenAfterAdd(reqs: seq<Request>, q: Request)
    requires q.phase.Handling?
    ensures |OpenReqs(reqs + [q])| == |OpenReqs(reqs)| + 1
  {
    var open := OpenReqs(reqs);
    assert OpenReqs(reqs + [q]) == open + {|reqs|};
    assert |reqs| !in open;
  }

  lemma AttachedAfterAdd(reqs: seq<Request>, q: Request, d: nat)
    requires q.phase.Handling?
    ensures |Attached(reqs + [q], d)| == |Attached(reqs, d)| + (if q.conn == d then 1 else 0)
    ensures q.conn != d ==> Attached(reqs + [q], d) == Attached(reqs, d)
  {
    var mine := Attached(reqs, d);
    if q.conn == d {
      assert Attached(reqs + [q], d) == mine + {|reqs|};
      assert |reqs| !in mine;
    } else {
      assert Attached(reqs + [q], d) == mine;
    }
  }

  lemma OpenReplaced(reqs: seq<Request>, r: nat, q: Request)
    requires r < |reqs| && (q.phase.Finished? || !reqs[r].phase.Finished?)
    ensures |OpenReqs(reqs[r := q])|
         == |OpenReqs(reqs)| - (if q.phase.Finished? == reqs[r].phase.Finished? then 0 else 1)
    ensures OpenReqs(reqs) == {} ==> OpenReqs(reqs[r := q]) == {}
  {
    if q.phase.Finished? == reqs[r].phase.Finished? {
      assert OpenReqs(reqs[r := q]) == OpenReqs(reqs);
    } else {
      assert r in OpenReqs(reqs) && OpenReqs(reqs[r := q]) == OpenReqs(reqs) - {r};
    }
  }

  lemma AttachedReplaced(reqs: seq<Request>, r: nat, q: Request, d: nat)
    requires r < |reqs| && q.conn == reqs[r].conn && (Unattached(q) || !Unattached(reqs[r]))
    ensures |Attached(reqs[r := q], d)|
         == |Attached(reqs, d)| - (if q.conn == d && Unattached(q) != Unattached(reqs[r]) then 1 else 0)
    ensures Attached(reqs, d) == {} ==> Attached(reqs[r := q], d) == {}
  {
    if q.conn == d && Unattached(q) != Unattached(reqs[r]) {
      assert r in Attached(reqs, d) && Attached(reqs[r := q], d) == Attached(reqs, d) - {r};
    } else {
      assert Attached(reqs[r := q], d) == Attached(reqs, d);
    }
  }

  // ---------------------------------------------------------------- every step keeps it

  lemma InvAccept(s: Server, c: nat)
    requires Inv(s)
    ensures Inv(Do(s, Accept(c)))
  {
    var s' := Do(s, Accept(c));
    if s' != s {
      ConnAddIdle(s.conns, c, s'.conns[c]);
      ConnAddSlot(s.conns, c, s'.conns[c]);
      assert Attached(s.reqs, c) == {} by {
        forall r | 0 <= r < |s.reqs| ensures s.reqs[r].conn != c { assert ReqOk(s, s.reqs[r]); }
      }
      hide LiveConns, Slots, OpenReqs, Attached;
      forall r | 0 <= r < |s'.reqs| ensures ReqOk(s', s'.reqs[r]) { assert ReqOk(s, s.reqs[r]); }
      forall d | d in s'.conns ensures ConnOk(s', d) { assert d != c ==> ConnOk(s, d); }
    }
  }

  /** A step of one connection that starts no request. */
  lemma InvConnStep(s: Server, s': Server, c: nat)
    requires Inv(s) && c in s.conns && c in s'.conns && s' == Put(s, c, s'.conns[c]).(wg := s'.wg, sem := s'.sem)
    requires var p, p' := s.conns[c].phase, s'.conns[c].phase;
             && s'.wg == s.wg - One(IsLive(p)) + One(IsLive(p'))
             && s'.sem == s.sem - One(HasSlot(p)) + One(HasSlot(p')) && (HasSlot(p') ==> HasSlot(p))
    requires ConnOk(s', c)
    ensures Inv(s')
  {
    LiveAfterChange(s.conns, c, s'.conns[c]);
    SlotsAfterChange(s.conns, c, s'.conns[c]);
    hide LiveConns, Slots, OpenReqs, Attached;
    forall r | 0 <= r < |s'.reqs| ensures ReqOk(s', s'.reqs[r]) { assert ReqOk(s, s.reqs[r]); }
    forall d | d in s'.conns ensures ConnOk(s', d) { assert d != c ==> ConnOk(s, d); }
  }

  lemma InvAdvance(s: Server, c: nat, oneWay: bool, ok: bool)
    requires Inv(s) && c in s.conns && !s.conns[c].phase.Added?
    ensures Inv(Do(s, Advance(c, oneWay, ok)))
  {
    hide LiveConns, Slots, OpenReqs, Attached, ConnOk;
    var s' := Do(s, Advance(c, oneWay, ok));
    AdvanceConnOk(s, c, oneWay, ok);
    InvConnStep(s, s', c);
  }

  lemma AdvanceConnOk(s: Server, c: nat, oneWay: bool, ok: bool)
    requires c in s.conns && ConnOk(s, c) && !s.conns[c].phase.Added?
    requires s.closed <==> !s.shutdown.NotStarted?
    ensures ConnOk(Do(s, Advance(c, oneWay, ok)), c)
  {
    hide LiveConns, Slots, OpenReqs;
    var k' := AdvanceConn(s, s.conns[c], oneWay, ok);
    assert Do(s, Advance(c, oneWay, ok)).conns[c] == k';
    if s.conns[c].phase.Exiting? && k'.phase.Drained? { assert |Attached(s.reqs, c)| == 0; }
  }

  lemma InvConnFlag(s: Server, step: Step)
    requires Inv(s) && (step.Heartbeat? || step.Limited? || step.BeginDrain? || step.ForceClose?)
    ensures Inv(Do(s, step))
  {
    hide LiveConns, Slots, OpenReqs, Attached;
    var s' := Do(s, step);
    if s' != s {
      assert ConnOk(s, step.c);
      InvConnStep(s, s', step.c);
    }
  }

  lemma InvAdmit(s: Server, c: nat, oneWay: bool, ok: bool)
    requires Inv(s) && c in s.conns && s.conns[c].phase.Added?
    ensures Inv(Do(s, Advance(c, oneWay, ok)))
  {
    hide LiveConns, Slots, OpenReqs, Attached;
    var s' := Do(s, Advance(c, oneWay, ok));
    var q := s'.reqs[|s.reqs|];
    LiveAfterChange(s.conns, c, s'.conns[c]);
    SlotsAfterChange(s.conns, c, s'.conns[c]);
    assert ConnOk(s, c);
    forall d | d in s'.conns ensures ConnOk(s', d) {
      assert ConnOk(s, d);
      AttachedAfterAdd(s.reqs, q, d);
    }
    OpenAfterAdd(s.reqs, q);
    forall r | 0 <= r < |s'.reqs| ensures ReqOk(s', s'.reqs[r]) { assert r < |s.reqs| ==> ReqOk(s, s.reqs[r]); }
  }

  lemma InvProgress(s: Server, r: nat)
    requires Inv(s)
    ensures Inv(Do(s, Progress(r)))
  {
    hide LiveConns, Slots, OpenReqs, Attached;
    if r < |s.reqs| {
      var s', q := Do(s, Progress(r)), s.reqs[r];
      assert ReqOk(s, q);
      if q.phase.Replied? {
        LiveAfterChange(s.conns, q.conn, s'.conns[q.conn]);
        SlotsAfterChange(s.conns, q.conn, s'.conns[q.conn]);
      }
      OpenReplaced(s.reqs, r, ProgressOf(q));
      forall i | 0 <= i < |s'.reqs| ensures ReqOk(s', s'.reqs[i]) { assert ReqOk(s, s.reqs[i]); }
      forall d | d in s'.conns ensures ConnOk(s', d) {
        assert ConnOk(s, d);
        AttachedReplaced(s.reqs, r, ProgressOf(q), d);
      }
    }
  }

  lemma InvShutdown(s: Server, step: Step)
    requires Inv(s) && (step.StartShutdown? || step.ShutdownAgain? || step.WaitReturns? || step.Timeout?)
    ensures Inv(Do(s, step))
  {
    var s' := Do(s, step);
    forall r | 0 <= r < |s'.reqs| ensures ReqOk(s', s'.reqs[r]) { assert ReqOk(s, s.reqs[r]); }
    forall d | d in s'.conns ensures ConnOk(s', d) {
      assert ConnOk(s, d);
      if s'.shutdown.Done? && !s.shutdown.Done? { assert d !in LiveConns(s.conns); }
    }
  }

  lemma InvDo(s: Server, step: Step)
    requires Inv(s)
    ensures Inv(Do(s, step))
  {
    hide Inv;
    match step {
      case Accept(c) => InvAccept(s, c);
      case Advance(c, oneWay, ok) =>
        if c in s.conns {
          if s.conns[c].phase.Added? { InvAdmit(s, c, oneWay, ok); } else { InvAdvance(s, c, oneWay, ok); }
        }
      case Progress(r) => InvProgress(s, r);
      case StartShutdown => InvShutdown(s, step);
      case ShutdownAgain => InvShutdown(s, step);
      case WaitReturns => InvShutdown(s, step);
      case Timeout => InvShutdown(s, step);
      case _ => InvConnFlag(s, step);
    }
  }

  lemma {:induction false} InvAlways(maxConns: nat, steps: seq<Step>)
    ensures Inv(Exec(maxConns, steps))
  {
    if steps == [] {
      assert LiveConns(map[]) == {} && Slots(map[]) == {} && OpenReqs([]) == {};
    } else {
      InvAlways(maxConns, steps[..|steps| - 1]);
      InvDo(Exec(maxConns, steps[..|steps| - 1]), steps[|steps| - 1]);
    }
  }

  // ---------------------------------------------------------------- what every run guarantees

  /** The wait group counts exactly the live connections and the running requests. */
  lemma WaitGroupIsExact(maxConns: nat, steps: seq<Step>)
    ensures var s := Exec(maxConns, steps); s.wg == |LiveConns(s.conns)| + |OpenReqs(s.reqs)|
    ensures |Slots(Exec(maxConns, steps).conns)| <= maxConns
  {
    InvAlways(maxConns, steps);
    MaxConnsIsFixed(maxConns, steps);
  }

  lemma {:induction false} MaxConnsIsFixed(maxConns: nat, steps: seq<Step>)
    ensures Exec(maxConns, steps).maxConns == maxConns
  {
    if steps != [] { MaxConnsIsFixed(maxConns, steps[..|steps| - 1]); }
  }

  /**
   A connection is closed by its own goroutine only after every request admitted on it has
   attempted its single reply (none if one-way); it is closed by force only after a timeout.
   */
  lemma CloseComesAfterReplies(maxConns: nat, steps: seq<Step>, c: nat)
    requires c in Exec(maxConns, steps).conns
    ensures var s := Exec(maxConns, steps);
            && (s.conns[c].forced ==> s.shutdown.TimedOut?)
            && (s.conns[c].phase.Closed? ==>
                  forall r :: 0 <= r < |s.reqs| && s.reqs[r].conn == c ==>
                    !s.reqs[r].phase.Handling? && s.reqs[r].replies == (if s.reqs[r].oneWay then 0 else 1))
  {
    InvAlways(maxConns, steps);
    hide Exec;
    var s := Exec(maxConns, steps);
    assert ConnOk(s, c);
    if s.conns[c].phase.Closed? {
      forall r | 0 <= r < |s.reqs| && s.reqs[r].conn == c
        ensures !s.reqs[r].phase.Handling? && s.reqs[r].replies == (if s.reqs[r].oneWay then 0 else 1)
      {
        assert ReqOk(s, s.reqs[r]);
        assert r !in Attached(s.reqs, c);
      }
    }
  }

  /** After `closed` is set each connection starts at most one more handler. */
  lemma AtMostOneLateRequest(maxConns: nat, steps: seq<Step>, c: nat)
    requires c in Exec(maxConns, steps).conns
    ensures Exec(maxConns, steps).conns[c].late <= 1
  {
    InvAlways(maxConns, steps);
    hide Exec;
    assert ConnOk(Exec(maxConns, steps), c);
  }

  lemma DoneStep(s: Server, step: Step)
    requires Inv(s) && s.shutdown.Done?
    ensures Do(s, step).shutdown.Done? && |Do(s, step).reqs| == |s.reqs|
  {
    hide LiveConns, Slots, OpenReqs, Attached;
    if step.Advance? && step.c in s.conns { assert ConnOk(s, step.c); }
  }

  lemma {:induction false} DoneStaysDone(maxConns: nat, steps: seq<Step>, more: seq<Step>)
    requires Exec(maxConns, steps).shutdown.Done?
    ensures Exec(maxConns, steps + more).shutdown.Done?
    ensures |Exec(maxConns, steps + more).reqs| == |Exec(maxConns, steps).reqs|
  {
    hide Do, Inv;
    if more == [] {
      assert steps + more == steps;
    } else {
      var less, last := more[..|more| - 1], more[|more| - 1];
      assert (steps + more)[..|steps + more| - 1] == steps + less;
      DoneStaysDone(maxConns, steps, less);
      InvAlways(maxConns, steps + less);
      DoneStep(Exec(maxConns, steps + less), last);
    }
  }

  /** Once a graceful Shutdown has returned, every request is finished and none is ever admitted again. */
  lemma GracefulShutdownIsFinal(maxConns: nat, steps: seq<Step>, more: seq<Step>, r: nat)
    requires Exec(maxConns, steps).shutdown.Done?
    requires r < |Exec(maxConns, steps + more).reqs|
    ensures r < |Exec(maxConns, steps).reqs|
    ensures var q := Exec(maxConns, steps + more).reqs[r]; q.phase.Finished? && q.replies == (if q.oneWay then 0 else 1)
  {
    DoneStaysDone(maxConns, steps, more);
    InvAlways(maxConns, steps + more);
    hide Exec;
    var s := Exec(maxConns, steps + more);
    assert ReqOk(s, s.reqs[r]);
    assert r !in OpenReqs(s.reqs);
  }

  // ---------------------------------------------------------------- the second Shutdown

  /** One connection of the server, still before the shutdown. */
  function Alone(p: Phase, wg: int, reqWg: int): Server {
    Server(1, false, wg, 1, map[0 := Conn(p, false, reqWg, false, 0)], [], NotStarted, 0)
  }

  /** That connection and a request of it that is being handled. */
  function Busy(closed: bool, shutdown: Shutdown, early: nat): Server {
    Server(1, closed, 2, 1, map[0 := Conn(LoopTop, false, 1, false, 0)], [Request(0, false, Handling, 0)],
           shutdown, early)
  }

  const GO := Advance(0, false, true)

  lemma ExecSnoc(maxConns: nat, steps: seq<Step>, step: Step)
    ensures Exec(maxConns, steps + [step]) == Do(Exec(maxConns, steps), step)
  {
    assert (steps + [step])[..|steps|] == steps;
  }

  /** The connection reaches the admission of its first request. */
  lemma ReachesAdmission()
    ensures Exec(1, [Accept(0)] + [GO] + [GO] + [GO] + [GO] + [GO] + [GO] + [GO] + [GO])
         == Alone(Admitting(false), 1, 0)
  {
    hide Exec, Do;
    NothingRun();
    Goes([Accept(0)], Slotted, 0);
    Goes([Accept(0)] + [GO], Spawned, 1);
    Goes([Accept(0)] + [GO] + [GO], Stored, 1);
    Goes([Accept(0)] + [GO] + [GO] + [GO], LoopTop, 1);
    var a := [Accept(0)] + [GO] + [GO] + [GO] + [GO];
    Goes(a, LoopTop2, 1);
    Goes(a + [GO], Reading, 1);
    Goes(a + [GO] + [GO], GotRequest(false), 1);
    Goes(a + [GO] + [GO] + [GO], GotRequest2(false), 1);
  }

  lemma NothingRun()
    ensures Exec(1, [Accept(0)]) == Alone(Slotted, 0, 0)
  {
    assert [Accept(0)][..0] == [];
  }

  /** The phases a connection passes on its way to a request. */
  function OnTheWay(p: Phase): Option<Phase> {
    match p
    case Slotted => Some(Spawned)
    case Spawned => Some(Stored)
    case Stored => Some(LoopTop)
    case LoopTop => Some(LoopTop2)
    case LoopTop2 => Some(Reading)
    case Reading => Some(GotRequest(false))
    case GotRequest(w) => Some(GotRequest2(w))
    case GotRequest2(w) => Some(Admitting(w))
    case _ => None
  }

  lemma Goes(steps: seq<Step>, p: Phase, wg: int)
    requires Exec(1, steps) == Alone(p, wg, 0) && OnTheWay(p).Some?
    ensures Exec(1, steps + [GO]) == Alone(OnTheWay(p).value, wg + One(p.Slotted?), 0)
  {
    ExecSnoc(1, steps, GO);
    hide Exec;
    var k, next := Conn(p, false, 0, false, 0), Conn(OnTheWay(p).value, false, 0, false, 0);
    assert AdvanceConn(Alone(p, wg, 0), k, false, true) == next;
    assert map[0 := k][0 := next] == map[0 := next];
  }

  /** The run of a request, a Shutdown that waits for it and another one that does not. */
  const TWO_SHUTDOWNS: seq<Step> :=
    [Accept(0)] + [GO] + [GO] + [GO] + [GO] + [GO] + [GO] + [GO] + [GO] + [GO] + [GO] + [StartShutdown]
      + [ShutdownAgain]

  /** Only the Shutdown that closes the server waits: another one returns nil while a request is being handled. */
  lemma SecondShutdownDoesNotWait()
    ensures var s := Exec(1, TWO_SHUTDOWNS);
            s.early == 1 && s.shutdown.Waiting? && |s.reqs| == 1 && s.reqs[0].phase.Handling? && s.reqs[0].replies == 0
  {
    ReachesAdmission();
    hide Exec;
    var b := [Accept(0)] + [GO] + [GO] + [GO] + [GO] + [GO] + [GO] + [GO] + [GO];
    ExecSnoc(1, b, GO);
    assert Do(Alone(Admitting(false), 1, 0), GO) == Alone(Added(false), 1, 1);
    ExecSnoc(1, b + [GO], GO);
    assert Do(Alone(Added(false), 1, 1), GO) == Busy(false, NotStarted, 0);
    ExecSnoc(1, b + [GO] + [GO], StartShutdown);
    ExecSnoc(1, b + [GO] + [GO] + [StartShutdown], ShutdownAgain);
  }
}
