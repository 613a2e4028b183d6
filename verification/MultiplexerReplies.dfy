/**
 Which result reaches which caller of the multiplexer (micro/net/stream.go), told by the steps of
 a run: a reply is the very frame that arrived for the caller's registration, frame and caller
 belong to each other one to one, and a failure comes from closing the stream.
 */
module MultiplexerReplies {
  import opened Common
  import opened Multiplexer

  /** The j-th step is the caller's registration, which makes this channel. */
  ghost predicate Opens(steps: seq<Step>, j: nat, c: nat, ch: nat) {
    j < |steps| && steps[j] == Register(c) && |Exec(steps[..j]).chans| == ch
  }

  ghost predicate Registered(steps: seq<Step>, c: nat, ch: nat) {
    exists j: nat :: Opens(steps, j, c, ch)
  }

  /** The k-th step is a frame that arrives while its id is pending for this channel and the read loop is free. */
  ghost predicate Takes(steps: seq<Step>, k: nat, ch: nat) {
    && k < |steps| && steps[k].Arrive?
    && var s := Exec(steps[..k]);
       s.dispatching.None? && steps[k].id in s.pending && s.pending[steps[k].id] == ch
  }

  /** The k-th step closes the stream while the channel is pending. */
  ghost predicate Fails(steps: seq<Step>, k: nat, ch: nat) {
    && k < |steps| && steps[k].FailAll?
    && var s := Exec(steps[..k]);
       !s.closed && ch in s.pending.Values
  }

  /** The frame of such a step. */
  function FrameOf(step: Step): Result
    requires step.Arrive?
  {
    Reply(step.id, step.payload)
  }

  ghost predicate TakenFrom(steps: seq<Step>, ch: nat, r: Result) {
    exists k: nat :: Takes(steps, k, ch) && FrameOf(steps[k]) == r
  }

  ghost predicate FailedAt(steps: seq<Step>, ch: nat) {
    exists k: nat :: Fails(steps, k, ch)
  }

  /** Where a result comes from. */
  ghost predicate Sourced(steps: seq<Step>, ch: nat, r: Result) {
    if r.Failure? then FailedAt(steps, ch) else TakenFrom(steps, ch, r)
  }

  /** Everything in flight or received has a source, and every channel a registered caller. */
  ghost predicate History(steps: seq<Step>) {
    var s := Exec(steps);
    && (forall ch: nat, r :: ch < |s.chans| && r in s.chans[ch].put ==> Sourced(steps, ch, r))
    && (s.dispatching.Some? ==> Sourced(steps, s.dispatching.value.0, s.dispatching.value.1))
    && (forall ch :: ch in s.failing ==> Sourced(steps, ch, Failure))
    && (forall c :: c in s.callers ==> GotOk(s, s.callers[c].phase))
    && (forall c :: c in s.callers && HasChan(s.callers[c].phase) ==> Registered(steps, c, s.callers[c].phase.ch))
  }

  /** What a caller received had been put into its channel. */
  ghost predicate GotOk(s: Stream, p: Phase) {
    (p.Leaving? || p.Finished?) && p.got.Some? ==> p.ch < |s.chans| && p.got.value in s.chans[p.ch].put
  }

  // ---------------------------------------------------------------- sources stay

  lemma LongerRun(steps: seq<Step>, last: Step, k: nat)
    requires k <= |steps|
    ensures (steps + [last])[..k] == steps[..k] && (k < |steps| ==> (steps + [last])[k] == steps[k])
  {
  }

  lemma SourcedStays(steps: seq<Step>, last: Step, ch: nat, r: Result)
    requires Sourced(steps, ch, r)
    ensures Sourced(steps + [last], ch, r)
  {
    hide Exec;
    if r.Failure? {
      var k: nat :| Fails(steps, k, ch);
      LongerRun(steps, last, k);
      assert Fails(steps + [last], k, ch);
    } else {
      var k: nat :| Takes(steps, k, ch) && FrameOf(steps[k]) == r;
      LongerRun(steps, last, k);
      assert Takes(steps + [last], k, ch);
    }
  }

  lemma RegisteredStays(steps: seq<Step>, last: Step, c: nat, ch: nat)
    requires Registered(steps, c, ch) || (last == Register(c) && |Exec(steps).chans| == ch)
    ensures Registered(steps + [last], c, ch)
  {
    hide Exec;
    LongerRun(steps, last, |steps|);
    if Registered(steps, c, ch) {
      var j: nat :| Opens(steps, j, c, ch);
      LongerRun(steps, last, j);
      assert Opens(steps + [last], j, c, ch);
    } else {
      assert (steps + [last])[|steps|] == last && steps[..|steps|] == steps;
      assert Opens(steps + [last], |steps|, c, ch);
    }
  }

  lemma LastStep(steps: seq<Step>, last: Step)
    ensures Exec(steps + [last]) == Do(Exec(steps), last)
    ensures (steps + [last])[|steps|] == last && (steps + [last])[..|steps|] == steps
  {
    assert (steps + [last])[..|steps|] == steps;
  }

  // ---------------------------------------------------------------- one step

  /** A result in a channel was there before or has just been sent by the read loop or the closing thread. */
  lemma PutBy(s: Stream, step: Step, ch: nat, r: Result)
    requires ch < |Do(s, step).chans| && r in Do(s, step).chans[ch].put
    ensures || (ch < |s.chans| && r in s.chans[ch].put)
            || s.dispatching == Some((ch, r))
            || (ch in s.failing && r.Failure?)
  {
  }

  lemma DispatchedBy(s: Stream, step: Step)
    requires Do(s, step).dispatching.Some?
    ensures || Do(s, step).dispatching == s.dispatching
            || (step.Arrive? && s.dispatching.None? && step.id in s.pending
                && Do(s, step).dispatching == Some((s.pending[step.id], FrameOf(step))))
  {
  }

  lemma FailingBy(s: Stream, step: Step, ch: nat)
    requires ch in Do(s, step).failing
    ensures ch in s.failing || (step.FailAll? && !s.closed && ch in s.pending.Values)
  {
  }

  lemma PutsStay(s: Stream, step: Step, ch: nat, r: Result)
    requires ch < |s.chans| && r in s.chans[ch].put
    ensures ch < |Do(s, step).chans| && r in Do(s, step).chans[ch].put
  {
  }

  predicate Has(s: Stream, c: nat, ch: nat, r: Result) {
    && c in s.callers && (s.callers[c].phase.Leaving? || s.callers[c].phase.Finished?)
    && s.callers[c].phase.ch == ch && s.callers[c].phase.got == Some(r)
  }

  /** What a caller has it had before, or has just taken out of its channel. */
  lemma GotFrom(s: Stream, step: Step, c: nat, ch: nat, r: Result)
    requires Has(Do(s, step), c, ch, r)
    ensures Has(s, c, ch, r) || (ch < |s.chans| && r in s.chans[ch].put)
  {
  }

  lemma GotBy(s: Stream, step: Step, c: nat)
    requires c in Do(s, step).callers
    requires c in s.callers ==> GotOk(s, s.callers[c].phase)
    ensures GotOk(Do(s, step), Do(s, step).callers[c].phase)
  {
    hide Do;
    var p := Do(s, step).callers[c].phase;
    if (p.Leaving? || p.Finished?) && p.got.Some? {
      GotFrom(s, step, c, p.ch, p.got.value);
      PutsStay(s, step, p.ch, p.got.value);
    }
  }

  lemma HasChanBy(s: Stream, step: Step, c: nat)
    requires c in Do(s, step).callers && HasChan(Do(s, step).callers[c].phase)
    ensures var ch := Do(s, step).callers[c].phase.ch;
            || (c in s.callers && HasChan(s.callers[c].phase) && s.callers[c].phase.ch == ch)
            || (step == Register(c) && |s.chans| == ch)
  {
  }

  // ---------------------------------------------------------------- all runs

  lemma NewSource(steps: seq<Step>, last: Step, ch: nat, r: Result)
    requires Sourced(steps, ch, r)
             || (var s := Exec(steps); last.Arrive? && s.dispatching.None? && last.id in s.pending
                                       && s.pending[last.id] == ch && r == FrameOf(last))
             || (var s := Exec(steps); last.FailAll? && !s.closed && ch in s.pending.Values && r.Failure?)
    ensures Sourced(steps + [last], ch, r)
  {
    hide Exec;
    LongerRun(steps, last, |steps|);
    assert (steps + [last])[|steps|] == last && steps[..|steps|] == steps;
    if Sourced(steps, ch, r) {
      SourcedStays(steps, last, ch, r);
    } else if r.Failure? {
      assert Fails(steps + [last], |steps|, ch);
    } else {
      assert Takes(steps + [last], |steps|, ch);
    }
  }

  lemma PutSourced(steps: seq<Step>, last: Step, ch: nat, r: Result)
    requires History(steps)
    ensures var s := Exec(steps + [last]);
            ch < |s.chans| && r in s.chans[ch].put ==> Sourced(steps + [last], ch, r)
  {
    LastStep(steps, last);
    hide Exec, Do, Sourced;
    if ch < |Exec(steps + [last]).chans| && r in Exec(steps + [last]).chans[ch].put {
      PutBy(Exec(steps), last, ch, r);
      SourcedStays(steps, last, ch, r);
    }
  }

  lemma {:induction false} HistoryAlways(steps: seq<Step>)
    ensures History(steps)
  {
    if steps != [] {
      var front, last := steps[..|steps| - 1], steps[|steps| - 1];
      assert steps == front + [last];
      HistoryAlways(front);
      InvAlways(front);
      HistoryStep(front, last);
    } else {
      EmptyRun();
    }
  }

  lemma HistoryStep(front: seq<Step>, last: Step)
    requires History(front) && Inv(Exec(front))
    ensures History(front + [last])
  {
    LastStep(front, last);
    hide Exec, Do, Sourced, Inv, GotOk, Registered;
    var s, s' := Exec(front), Exec(front + [last]);
    forall ch: nat, r | ch < |s'.chans| && r in s'.chans[ch].put ensures Sourced(front + [last], ch, r) {
      PutSourced(front, last, ch, r);
    }
    if s'.dispatching.Some? {
      DispatchedBy(s, last);
      NewSource(front, last, s'.dispatching.value.0, s'.dispatching.value.1);
    }
    forall ch | ch in s'.failing ensures Sourced(front + [last], ch, Failure) {
      FailingBy(s, last, ch);
      NewSource(front, last, ch, Failure);
    }
    forall c | c in s'.callers ensures GotOk(s', s'.callers[c].phase) { GotBy(s, last, c); }
    forall c | c in s'.callers && HasChan(s'.callers[c].phase)
      ensures Registered(front + [last], c, s'.callers[c].phase.ch)
    {
      HasChanBy(s, last, c);
      RegisteredStays(front, last, c, s'.callers[c].phase.ch);
    }
  }

  // ---------------------------------------------------------------- what a caller gets

  lemma ChannelsStay(s: Stream, step: Step)
    ensures |s.chans| <= |Do(s, step).chans|
  {
  }

  lemma {:induction false} ChannelsOnlyGrow(steps: seq<Step>, m: nat, n: nat)
    requires m <= n <= |steps|
    ensures |Exec(steps[..m]).chans| <= |Exec(steps[..n]).chans|
  {
    if m < n {
      hide Exec, Do;
      ChannelsOnlyGrow(steps, m, n - 1);
      RunOn(steps, n - 1);
      ChannelsStay(Exec(steps[..n - 1]), steps[n - 1]);
    }
  }

  /** A frame taken for a channel arrives after the registration that made the channel. */
  lemma OpensBeforeTakes(steps: seq<Step>, c: nat, ch: nat, j: nat, k: nat)
    requires Opens(steps, j, c, ch) && (Takes(steps, k, ch) || Fails(steps, k, ch))
    ensures j < k
  {
    InvAlways(steps[..k]);
    hide Exec, ChanOk, CallerOk, OwnChannels;
    if k <= j { ChannelsOnlyGrow(steps, k, j); }
  }

  ghost predicate Got(s: Stream, c: nat, r: Result) {
    c in s.callers && (s.callers[c].phase.Leaving? || s.callers[c].phase.Finished?) && s.callers[c].phase.got == Some(r)
  }

  /**
   In every run a reply that a caller gets is the frame of a step of the run: it arrived, with the
   caller's id and exactly this payload, after the caller's own registration and while that was
   pending.
   */
  lemma ReplyIsTheFrameThatArrived(steps: seq<Step>, c: nat, id: nat, payload: string)
    ensures Got(Exec(steps), c, Reply(id, payload)) ==>
              var ch := Exec(steps).callers[c].phase.ch;
              && Exec(steps).callers[c].id == id
              && exists j: nat, k: nat :: Opens(steps, j, c, ch) && Takes(steps, k, ch) && j < k
                                          && steps[k] == Arrive(id, payload)
  {
    HistoryAlways(steps);
    InvAlways(steps);
    hide Exec, ChanOk, OwnChannels;
    var s := Exec(steps);
    if Got(s, c, Reply(id, payload)) {
      var ch := s.callers[c].phase.ch;
      assert GotOk(s, s.callers[c].phase) && CallerOk(s, s.callers[c]);
      assert Sourced(steps, ch, Reply(id, payload));
      var k: nat :| Takes(steps, k, ch) && FrameOf(steps[k]) == Reply(id, payload);
      var j: nat :| Opens(steps, j, c, ch);
      OpensBeforeTakes(steps, c, ch, j, k);
    }
  }

  /** A failure comes from closing the stream after the caller's registration, while that was pending. */
  lemma FailureMeansClosed(steps: seq<Step>, c: nat)
    ensures Got(Exec(steps), c, Failure) ==>
              var ch := Exec(steps).callers[c].phase.ch;
              exists j: nat, k: nat :: Opens(steps, j, c, ch) && Fails(steps, k, ch) && j < k
  {
    HistoryAlways(steps);
    InvAlways(steps);
    hide Exec, ChanOk, OwnChannels;
    var s := Exec(steps);
    if Got(s, c, Failure) {
      var ch := s.callers[c].phase.ch;
      assert GotOk(s, s.callers[c].phase) && CallerOk(s, s.callers[c]);
      assert Sourced(steps, ch, Failure);
      var k: nat :| Fails(steps, k, ch);
      var j: nat :| Opens(steps, j, c, ch);
      OpensBeforeTakes(steps, c, ch, j, k);
    }
  }

  /** One arrival serves at most one caller, also when callers share an id. */
  lemma OneFrameOneCaller(steps: seq<Step>, k: nat, c: nat, d: nat)
    ensures var s := Exec(steps);
            c in s.callers && HasChan(s.callers[c].phase) && d in s.callers && HasChan(s.callers[d].phase) ==>
              (Takes(steps, k, s.callers[c].phase.ch) && Takes(steps, k, s.callers[d].phase.ch) ==> c == d)
  {
    InvAlways(steps);
    hide Exec, ChanOk, CallerOk;
  }

  // ---------------------------------------------------------------- what an arriving frame does

  /** The frame is on its way into the channel, or has entered it, and nothing else has. */
  ghost predicate OnlyThis(s: Stream, ch: nat, r: Result) {
    && ch < |s.chans|
    && ((s.dispatching == Some((ch, r)) && s.chans[ch].put == []) || s.chans[ch].put == [r])
  }

  lemma TakenOnTheWay(s: Stream, step: Step)
    requires Inv(s) && step.Arrive? && s.dispatching.None? && step.id in s.pending
    ensures OnlyThis(Do(s, step), s.pending[step.id], FrameOf(step))
  {
    assert ChanOk(s, s.pending[step.id]);
    hide ChanOk, CallerOk, OwnChannels;
  }

  lemma OnlyThisStays(s: Stream, step: Step, ch: nat, r: Result)
    requires Inv(s) && OnlyThis(s, ch, r)
    ensures OnlyThis(Do(s, step), ch, r)
  {
    assert ChanOk(s, ch);
    hide ChanOk, CallerOk, OwnChannels;
  }

  /**
   Conversely, once a frame has arrived for a pending registration it is the only result that ever
   enters that channel, and so the only one that its caller can get.
   */
  lemma {:induction false} ArrivedFrameIsTheResult(steps: seq<Step>, k: nat, ch: nat, n: nat)
    requires k < n <= |steps|
    ensures Takes(steps, k, ch) ==> OnlyThis(Exec(steps[..n]), ch, FrameOf(steps[k]))
    decreases n
  {
    hide Exec, Do, Inv, OnlyThis, Takes;
    RunOn(steps, n - 1);
    InvAlways(steps[..n - 1]);
    if Takes(steps, k, ch) {
      if n == k + 1 {
        TakenAt(steps, k, ch);
      } else {
        TakesArrives(steps, k, ch);
        ArrivedFrameIsTheResult(steps, k, ch, n - 1);
        OnlyThisStays(Exec(steps[..n - 1]), steps[n - 1], ch, FrameOf(steps[k]));
      }
    }
  }

  lemma TakesArrives(steps: seq<Step>, k: nat, ch: nat)
    requires Takes(steps, k, ch)
    ensures k < |steps| && steps[k].Arrive?
  {
  }

  lemma TakenAt(steps: seq<Step>, k: nat, ch: nat)
    requires Takes(steps, k, ch) && Inv(Exec(steps[..k]))
    ensures steps[k].Arrive? && OnlyThis(Do(Exec(steps[..k]), steps[k]), ch, FrameOf(steps[k]))
  {
    hide Exec, Do, Inv, OnlyThis;
    TakenOnTheWay(Exec(steps[..k]), steps[k]);
  }

  lemma CallerGetsTheFrame(steps: seq<Step>, k: nat, c: nat, r: Result)
    ensures Got(Exec(steps), c, r) && Takes(steps, k, Exec(steps).callers[c].phase.ch) ==> r == FrameOf(steps[k])
  {
    if Got(Exec(steps), c, r) && Takes(steps, k, Exec(steps).callers[c].phase.ch) {
      HistoryAlways(steps);
      assert steps[..|steps|] == steps;
      hide Exec, Sourced, Registered;
      ArrivedFrameIsTheResult(steps, k, Exec(steps).callers[c].phase.ch, |steps|);
      assert GotOk(Exec(steps), Exec(steps).callers[c].phase);
    }
  }

  /** And one registration takes at most one frame. */
  lemma OneCallerOneFrame(steps: seq<Step>, k: nat, m: nat, ch: nat)
    ensures Takes(steps, k, ch) && Takes(steps, m, ch) ==> k == m
  {
    if Takes(steps, k, ch) && Takes(steps, m, ch) {
      if k < m { TakenOnlyOnce(steps, k, m, ch); }
      if m < k { TakenOnlyOnce(steps, m, k, ch); }
    }
  }

  lemma TakenOnlyOnce(steps: seq<Step>, k: nat, m: nat, ch: nat)
    requires k < m < |steps| && Takes(steps, k, ch)
    ensures !Takes(steps, m, ch)
  {
    ArrivedFrameIsTheResult(steps, k, ch, m);
    InvAlways(steps[..m]);
    hide Exec, CallerOk, OwnChannels;
    assert ChanOk(Exec(steps[..m]), ch);
  }

  // ---------------------------------------------------------------- how a call ends

  predicate Ended(p: Phase) {
    p.Leaving? || p.Finished?
  }

  predicate Received(s: Stream, step: Step, c: nat) {
    && step == Receive(c) && c in s.callers && s.callers[c].phase.Waiting?
    && s.callers[c].phase.ch < |s.chans|
    && s.chans[s.callers[c].phase.ch].taken < |s.chans[s.callers[c].phase.ch].put|
  }

  /** It gives up waiting, or could not write its request. */
  predicate Abandons(s: Stream, step: Step, c: nat) {
    c in s.callers && ((step == GiveUp(c) && s.callers[c].phase.Waiting?)
                       || (step == WriteFailed(c) && s.callers[c].phase.Writing?))
  }

  predicate IsOwn(step: Step, c: nat) {
    step == Written(c) || step == WriteFailed(c) || step == Receive(c) || step == GiveUp(c)
  }

  lemma OthersLeaveIt(s: Stream, step: Step, c: nat)
    requires c in s.callers && HasChan(s.callers[c].phase) && !Ended(s.callers[c].phase) && !IsOwn(step, c)
    ensures c in Do(s, step).callers && Do(s, step).callers[c] == s.callers[c]
  {
  }

  lemma OwnStep(s: Stream, step: Step, c: nat)
    requires c in s.callers && HasChan(s.callers[c].phase) && !Ended(s.callers[c].phase) && IsOwn(step, c)
    ensures c in Do(s, step).callers
    ensures var p := Do(s, step).callers[c].phase;
            && (Ended(p) <==> Received(s, step, c) || Abandons(s, step, c))
            && (Ended(p) ==> p.Leaving? && p.ch == s.callers[c].phase.ch && (p.got.Some? <==> Received(s, step, c)))
  {
  }

  /** A call under way ends exactly by receiving, giving up or failing to write; only the first gives it a result. */
  lemma EndsExactly(s: Stream, step: Step, c: nat)
    requires c in s.callers && HasChan(s.callers[c].phase) && !Ended(s.callers[c].phase)
    ensures c in Do(s, step).callers
    ensures var p := Do(s, step).callers[c].phase;
            && (Ended(p) <==> Received(s, step, c) || Abandons(s, step, c))
            && (Ended(p) ==> p.Leaving? && p.ch == s.callers[c].phase.ch && (p.got.Some? <==> Received(s, step, c)))
  {
    hide Do;
    if IsOwn(step, c) { OwnStep(s, step, c); } else { OthersLeaveIt(s, step, c); }
  }

  /** Once it has ended it keeps what it got, and finishes exactly by its unregister. */
  lemma OutcomeStays(s: Stream, step: Step, c: nat)
    requires c in s.callers && Ended(s.callers[c].phase)
    ensures c in Do(s, step).callers
    ensures var p, p' := s.callers[c].phase, Do(s, step).callers[c].phase;
            && Ended(p') && p'.ch == p.ch && p'.got == p.got
            && (p'.Finished? <==> p.Finished? || step == Unregister(c))
  {
  }

  /** A step of the run ends the call without a result. */
  ghost predicate AbandonedAt(steps: seq<Step>, k: nat, c: nat) {
    k < |steps| && Abandons(Exec(steps[..k]), steps[k], c)
  }

  ghost predicate EverAbandoned(steps: seq<Step>, c: nat) {
    exists k: nat :: AbandonedAt(steps, k, c)
  }

  /** In every run a call has ended without a result exactly when it gave up or failed to write at some step. */
  lemma {:induction false} NoResultExactly(steps: seq<Step>, c: nat)
    ensures var s := Exec(steps);
            (c in s.callers && Ended(s.callers[c].phase) && s.callers[c].phase.got.None?) <==> EverAbandoned(steps, c)
  {
    if steps == [] {
      EmptyRun();
    } else {
      var front, last := steps[..|steps| - 1], steps[|steps| - 1];
      NoResultExactly(front, c);
      AbandonedSnoc(steps, c);
      assert Exec(steps) == Do(Exec(front), last);
      NoResultStep(Exec(front), last, c);
      hide Exec, Do;
    }
  }

  ghost predicate NoResult(s: Stream, c: nat) {
    c in s.callers && Ended(s.callers[c].phase) && s.callers[c].phase.got.None?
  }

  lemma NoResultStep(s: Stream, step: Step, c: nat)
    ensures NoResult(Do(s, step), c) <==> NoResult(s, c) || Abandons(s, step, c)
  {
  }

  lemma AbandonedSnoc(steps: seq<Step>, c: nat)
    requires steps != []
    ensures var front := steps[..|steps| - 1];
            EverAbandoned(steps, c) <==> EverAbandoned(front, c) || Abandons(Exec(front), steps[|steps| - 1], c)
  {
    hide Exec, Abandons;
    var front := steps[..|steps| - 1];
    if k: nat :| AbandonedAt(front, k, c) {
      assert front[..k] == steps[..k];
      assert AbandonedAt(steps, k, c);
    }
    if k: nat :| AbandonedAt(steps, k, c) {
      if k < |front| {
        assert front[..k] == steps[..k];
        assert AbandonedAt(front, k, c);
      }
    }
    if Abandons(Exec(front), steps[|front|], c) { assert AbandonedAt(steps, |front|, c); }
  }
}
