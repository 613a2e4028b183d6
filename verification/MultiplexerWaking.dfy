/**
 Waking and numbering in the request multiplexer (micro/net/stream.go, micro/net/client.go): a
 waiter on a closed stream can still get a result exactly if it is not stranded, and an id drawn
 from the counter is the number of draws made so far by all streams of the client.
 */
module MultiplexerWaking {
  import opened Common
  import opened Multiplexer

  // ---------------------------------------------------------------- who can still be woken

  ghost predicate HasResult(s: Stream, c: nat) {
    && c in s.callers && (s.callers[c].phase.Leaving? || s.callers[c].phase.Finished?)
    && s.callers[c].phase.got.Some?
  }

  ghost predicate Wakeable(s: Stream, c: nat) {
    exists more :: GiveUp(c) !in more && HasResult(After(s, more), c)
  }

  /** The threads that hold the channel send to it. */
  lemma Sent(s: Stream, c: nat, step: Step)
    requires Inv(s) && c in s.callers && s.callers[c].phase.Waiting? && s.callers[c].phase.ch < |s.chans|
    requires var ch := s.callers[c].phase.ch;
             && s.chans[ch].taken >= |s.chans[ch].put|
             && ((step == FailOne(ch) && ch in s.failing)
                 || (step == Deliver && s.dispatching.Some? && s.dispatching.value.0 == ch))
    ensures var s', ch := Do(s, step), s.callers[c].phase.ch;
            && s'.callers == s.callers && ch < |s'.chans| && s'.chans[ch].taken < |s'.chans[ch].put|
  {
    assert ChanOk(s, s.callers[c].phase.ch);
  }

  lemma ReceivesNow(s: Stream, c: nat)
    requires c in s.callers && s.callers[c].phase.Waiting? && s.callers[c].phase.ch < |s.chans|
    requires s.chans[s.callers[c].phase.ch].taken < |s.chans[s.callers[c].phase.ch].put|
    ensures HasResult(Do(s, Receive(c)), c)
  {
  }

  lemma OneStep(s: Stream, a: Step)
    ensures After(s, [a]) == Do(s, a)
  {
    hide Do;
    assert [a][..0] == [];
  }

  lemma TwoSteps(s: Stream, a: Step, b: Step)
    ensures After(s, [a, b]) == Do(Do(s, a), b)
  {
    hide Do;
    assert [a, b][..1] == [a];
    OneStep(s, a);
  }

  lemma CanBeWoken(s: Stream, c: nat)
    requires Inv(s) && WaitsAtClosed(s, c) && WillBeWoken(s, c)
    ensures Wakeable(s, c)
  {
    hide Inv, Do;
    var ch := s.callers[c].phase.ch;
    if s.chans[ch].taken < |s.chans[ch].put| {
      ReceivesNow(s, c);
      OneStep(s, Receive(c));
      assert GiveUp(c) !in [Receive(c)];
    } else {
      var step := if ch in s.failing then FailOne(ch) else Deliver;
      Sent(s, c, step);
      ReceivesNow(Do(s, step), c);
      TwoSteps(s, step, Receive(c));
      assert GiveUp(c) !in [step, Receive(c)];
    }
  }

  lemma {:induction false} ExecAfter(steps: seq<Step>, more: seq<Step>)
    ensures Exec(steps + more) == After(Exec(steps), more)
    decreases |more|
  {
    hide Do;
    if more == [] {
      assert steps + more == steps;
    } else {
      ExecAfter(steps, more[..|more| - 1]);
      assert (steps + more)[..|steps + more| - 1] == steps + more[..|more| - 1];
    }
  }

  lemma ClosedHasNonePending(s: Stream, c: nat)
    requires Inv(s) && WaitsAtClosed(s, c)
    ensures s.pending == map[] && s.callers[c].phase.ch < |s.chans|
    ensures Stranded(s, c) <==> !WillBeWoken(s, c)
  {
    assert CallerOk(s, s.callers[c]);
  }

  /**
   In every run a waiter on a closed stream gets a result on some way on, its own context not
   ending, if and only if it is not stranded; nobody else waits for ever.
   */
  lemma WokenExactly(steps: seq<Step>, c: nat)
    requires WaitsAtClosed(Exec(steps), c)
    ensures (exists more :: GiveUp(c) !in more && HasResult(Exec(steps + more), c)) <==> !Stranded(Exec(steps), c)
  {
    hide Exec, Inv, Stranded, WillBeWoken;
    var s := Exec(steps);
    InvAlways(steps);
    ClosedHasNonePending(s, c);
    if Stranded(s, c) {
      forall more | GiveUp(c) !in more ensures !HasResult(Exec(steps + more), c) {
        ExecAfter(steps, more);
        StrandedStays(s, c, more);
        StrandedHasNone(After(s, more), c);
      }
    } else {
      CanBeWoken(s, c);
      var more :| GiveUp(c) !in more && HasResult(After(s, more), c);
      ExecAfter(steps, more);
      assert HasResult(Exec(steps + more), c);
    }
  }

  lemma StrandedHasNone(s: Stream, c: nat)
    requires Stranded(s, c)
    ensures !HasResult(s, c)
  {
  }

  // ---------------------------------------------------------------- how ids are drawn

  /** The draws from the client's counter: calls without an id, and those of its other streams. */
  function Draws(steps: seq<Step>): nat {
    if steps == [] then 0
    else
      var front, last := steps[..|steps| - 1], steps[|steps| - 1];
      Draws(front)
      + if last.OtherStream? || (last.Begin? && last.given == 0 && last.c !in Exec(front).callers) then 1 else 0
  }

  lemma {:induction false} CounterCountsDraws(steps: seq<Step>)
    ensures Exec(steps).reqID == Draws(steps)
  {
    if steps != [] { CounterCountsDraws(steps[..|steps| - 1]); }
  }

  lemma IdStays(s: Stream, step: Step, c: nat)
    requires c in s.callers
    ensures c in Do(s, step).callers && Do(s, step).callers[c].id == s.callers[c].id
  {
  }

  lemma Begun(s: Stream, c: nat, given: nat)
    requires c !in s.callers
    ensures var s' := Do(s, Begin(c, given));
            c in s'.callers && s'.callers[c] == Caller(if given == 0 then s.reqID + 1 else given, Ready)
  {
  }

  /** In every run a call has the id its user gave, or without one the number of draws up to its own, for good. */
  lemma {:induction false} IdIsExact(steps: seq<Step>, k: nat)
    requires k < |steps| && steps[k].Begin? && steps[k].c !in Exec(steps[..k]).callers
    ensures var c := steps[k].c;
            && c in Exec(steps).callers
            && Exec(steps).callers[c].id == if steps[k].given == 0 then Draws(steps[..k]) + 1 else steps[k].given
  {
    hide Do;
    var front := steps[..|steps| - 1];
    if k == |steps| - 1 {
      CounterCountsDraws(front);
      Begun(Exec(front), steps[k].c, steps[k].given);
    } else {
      assert front[..k] == steps[..k];
      IdIsExact(front, k);
      IdStays(Exec(front), steps[|steps| - 1], steps[k].c);
    }
  }
}
