/**
 The read loop of one connection during a drain (micro/net/server.go): exactly when it ends and
 when its flags are set, and what closing and draining stop: at most one more frame is read after
 the server is closed, and a draining connection reads and admits nothing more.
 */
module ServerDrainLoop {
  import opened Common
  import opened ServerDrain
  import opened ServerDrainReads

  /** Before the end of the loop. */
  predicate Before(p: Phase) {
    Serving(p) || p.Stored?
  }

  /** The loop ends: a test sees the server closed or the connection draining, or a read fails. */
  predicate Ends(s: Server, step: Step, c: nat) {
    && step.Advance? && step.c == c && c in s.conns
    && match s.conns[c].phase
       case Stored => s.closed
       case LoopTop => s.closed
       case LoopTop2 => s.conns[c].draining
       case Reading => !step.ok
       case GotRequest(_) => s.conns[c].draining
       case GotRequest2(_) => s.closed
       case _ => false
  }

  predicate IsOwn(step: Step, c: nat) {
    (step.Advance? && step.c == c) || step == Heartbeat(c) || step == Limited(c)
  }

  lemma OthersLeaveIt(s: Server, step: Step, c: nat)
    requires c in s.conns && !IsOwn(step, c)
    ensures c in Do(s, step).conns && Do(s, step).conns[c].phase == s.conns[c].phase
  {
  }

  lemma OwnStep(s: Server, step: Step, c: nat)
    requires c in s.conns && Before(s.conns[c].phase) && IsOwn(step, c)
    ensures c in Do(s, step).conns
    ensures Before(Do(s, step).conns[c].phase) || Do(s, step).conns[c].phase.Exiting?
    ensures Do(s, step).conns[c].phase.Exiting? <==> Ends(s, step, c)
  {
  }

  /** The loop ends exactly so; neither another kind of frame nor a refusal by the rate limiter ends it. */
  lemma EndsExactly(s: Server, step: Step, c: nat)
    requires c in s.conns && Before(s.conns[c].phase)
    ensures c in Do(s, step).conns
    ensures Before(Do(s, step).conns[c].phase) || Do(s, step).conns[c].phase.Exiting?
    ensures Do(s, step).conns[c].phase.Exiting? <==> Ends(s, step, c)
  {
    hide Do;
    if IsOwn(step, c) { OwnStep(s, step, c); } else { OthersLeaveIt(s, step, c); }
  }

  /** The loop comes round to its top exactly after an admitted request, another frame, a refusal, or at the start. */
  lemma TopExactly(s: Server, step: Step, c: nat)
    requires c in s.conns && !s.conns[c].phase.LoopTop?
    ensures c in Do(s, step).conns
    ensures Do(s, step).conns[c].phase.LoopTop? <==>
              match s.conns[c].phase
              case Stored => step.Advance? && step.c == c && !s.closed
              case Reading => step == Heartbeat(c)
              case Admitting(_) => step == Limited(c)
              case Added(_) => step.Advance? && step.c == c
              case _ => false
  {
    if !IsOwn(step, c) {
      hide Do;
      OthersLeaveIt(s, step, c);
    }
  }

  /** The flags of a connection are set exactly by the drain, by an exit that saw a flag, and by the forced close. */
  lemma FlagsExactly(s: Server, step: Step, c: nat)
    requires c in s.conns
    ensures c in Do(s, step).conns
    ensures var k, k' := s.conns[c], Do(s, step).conns[c];
            && (k'.draining <==>
                || k.draining
                || (step == BeginDrain(c) && s.closed && !k.phase.Slotted? && !k.phase.Spawned?)
                || (Ends(s, step, c) && (k.phase.Stored? || k.phase.LoopTop? || k.phase.LoopTop2?)))
            && (k'.forced <==>
                || k.forced
                || (step == ForceClose(c) && s.shutdown.TimedOut? && !k.phase.Slotted? && !k.phase.Spawned?))
  {
  }

  // ---------------------------------------------------------------- after the server is closed

  /** A frame, request or not, is read on connection c. */
  predicate ReadsFrame(s: Server, step: Step, c: nat) {
    && c in s.conns && s.conns[c].phase.Reading?
    && (step == Heartbeat(c) || (step.Advance? && step.c == c && step.ok))
  }

  /** The frames read on c in states in which the server is closed. */
  function LateReads(n: nat, steps: seq<Step>, c: nat): nat {
    if steps == [] then 0
    else
      var front := steps[..|steps| - 1];
      var s := Exec(n, front);
      LateReads(n, front, c) + if s.closed && ReadsFrame(s, steps[|steps| - 1], c) then 1 else 0
  }

  ghost predicate LateOk(s: Server, c: nat, m: nat) {
    && m <= 1 && (!s.closed ==> m == 0)
    && (m == 1 ==> c in s.conns && !s.conns[c].phase.Slotted? && !s.conns[c].phase.Spawned? && !s.conns[c].phase.Stored?
                   && !s.conns[c].phase.LoopTop2? && !s.conns[c].phase.Reading?)
  }

  lemma LateStep(s: Server, step: Step, c: nat, m: nat)
    requires LateOk(s, c, m)
    ensures LateOk(Do(s, step), c, m + if s.closed && ReadsFrame(s, step, c) then 1 else 0)
  {
  }

  /** After the server is closed at most one more frame is read on each connection. */
  lemma {:induction false} AtMostOneLateFrame(n: nat, steps: seq<Step>, c: nat)
    ensures LateReads(n, steps, c) <= 1 && LateOk(Exec(n, steps), c, LateReads(n, steps, c))
  {
    hide Do, ReadsFrame;
    if steps != [] {
      AtMostOneLateFrame(n, steps[..|steps| - 1], c);
      LateStep(Exec(n, steps[..|steps| - 1]), steps[|steps| - 1], c, LateReads(n, steps[..|steps| - 1], c));
    }
  }

  // ---------------------------------------------------------------- a draining connection

  predicate Draining(s: Server, c: nat) {
    c in s.conns && s.conns[c].draining
  }

  predicate PastTest(p: Phase) {
    p.GotRequest2? || p.Admitting? || p.Added?
  }

  lemma DrainingStep(s: Server, step: Step, c: nat)
    requires Draining(s, c)
    ensures Draining(Do(s, step), c)
    ensures !s.conns[c].phase.Reading? && Published(s.conns[c].phase) ==>
              !Do(s, step).conns[c].phase.Reading? && Published(Do(s, step).conns[c].phase)
    ensures !PastTest(s.conns[c].phase) && Published(s.conns[c].phase) ==>
              && !PastTest(Do(s, step).conns[c].phase) && Published(Do(s, step).conns[c].phase)
              && (|Do(s, step).reqs| > |s.reqs| ==> Do(s, step).reqs[|s.reqs|].conn != c)
  {
  }

  lemma RunStep(n: nat, steps: seq<Step>, m: nat)
    requires m < |steps|
    ensures Exec(n, steps[..m + 1]) == Do(Exec(n, steps[..m]), steps[m])
  {
    assert steps[..m + 1][..m] == steps[..m];
  }

  /** A draining connection that is not reading never reads again. */
  lemma {:induction false} DrainingReadsNoMore(n: nat, steps: seq<Step>, k: nat, m: nat, c: nat)
    requires k <= m <= |steps|
    ensures var s, t := Exec(n, steps[..k]), Exec(n, steps[..m]);
            Draining(s, c) && Published(s.conns[c].phase) && !s.conns[c].phase.Reading? ==>
              Draining(t, c) && Published(t.conns[c].phase) && !t.conns[c].phase.Reading?
    decreases m
  {
    hide Exec, Do;
    if k < m {
      DrainingReadsNoMore(n, steps, k, m - 1, c);
      RunStep(n, steps, m - 1);
      if Draining(Exec(n, steps[..m - 1]), c) { DrainingStep(Exec(n, steps[..m - 1]), steps[m - 1], c); }
    }
  }

  /** And unless a request has passed the last test already, no request is admitted on it any more. */
  lemma {:induction false} DrainingAdmitsNoMore(n: nat, steps: seq<Step>, k: nat, m: nat, c: nat)
    requires k <= m < |steps|
    ensures var s, t := Exec(n, steps[..k]), Exec(n, steps[..m]);
            Draining(s, c) && Published(s.conns[c].phase) && !PastTest(s.conns[c].phase) ==>
              && Draining(t, c) && Published(t.conns[c].phase) && !PastTest(t.conns[c].phase)
              && (|Exec(n, steps[..m + 1]).reqs| > |t.reqs| ==> Exec(n, steps[..m + 1]).reqs[|t.reqs|].conn != c)
    decreases m
  {
    hide Exec, Do;
    if k < m {
      DrainingAdmitsNoMore(n, steps, k, m - 1, c);
      RunStep(n, steps, m - 1);
      if Draining(Exec(n, steps[..m - 1]), c) { DrainingStep(Exec(n, steps[..m - 1]), steps[m - 1], c); }
    }
    RunStep(n, steps, m);
    if Draining(Exec(n, steps[..m]), c) { DrainingStep(Exec(n, steps[..m]), steps[m], c); }
  }
}
