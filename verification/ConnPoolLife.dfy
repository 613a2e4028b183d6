/**
 What the pool of micro/pool/pool.go does with each connection: when exactly it is pinged, leased,
 parked and dropped, and, over all runs, that a connection whose ping failed, that came back
 expired or unhealthy, or that was found stale, is never handed out again.
 */
module ConnPoolLife {
  import opened Common
  import opened ConnPool

  // ---------------------------------------------------------------- one step

  predicate IsStage(p: Pool, w: nat, st: Stage) {
    w in p.transit && p.transit[w] == st
  }

  predicate IsNewest(p: Pool, w: nat) {
    p.idle != [] && p.idle[|p.idle| - 1] == w
  }

  /** Its lease is being closed, and not because it was marked unhealthy. */
  predicate ComesBack(p: Pool, w: nat) {
    w in p.handing && p.handing[w]
  }

  predicate HasRoom(p: Pool) {
    |p.idle| < p.maxIdle
  }

  /** The wrapper names a connection from now on that it did not name before. */
  predicate Enters(p: Pool, step: Step, w: nat) {
    !InUse(p, w) && ((step == DialOk(w) && p.dialing > 0) || step == RawPut(w))
  }

  /** A ping of the connection comes back. */
  predicate Pinged(p: Pool, step: Step, w: nat, ok: bool) {
    (step == PingGet(w, ok) && IsStage(p, w, Checking)) || (step == PingPut(w, ok) && IsStage(p, w, Returning))
  }

  /** The pool lets go of the connection. */
  predicate Drops(p: Pool, step: Step, w: nat) {
    || (step == PopExpired && IsNewest(p, w))
    || Pinged(p, step, w, false)
    || (step == PutLocked(w, true) && ComesBack(p, w))
    || (step == UnhealthyLocked(w) && w in p.handing && !p.handing[w])
    || (step == CloseDoomed(w) && IsStage(p, w, Doomed))
    || (!HasRoom(p) && ((step == PutLocked(w, false) && ComesBack(p, w) && !p.pings)
                        || (step == PingPut(w, true) && IsStage(p, w, Returning))))
  }

  /** What the step does to the wrapper's being in the pool. */
  ghost predicate InOut(p: Pool, step: Step, w: nat) {
    && (InUse(p, w) ==> (!InUse(Do(p, step), w) <==> Drops(p, step, w)))
    && (!InUse(p, w) ==> (InUse(Do(p, step), w) <==> Enters(p, step, w) && (step.RawPut? ==> HasRoom(p))))
  }

  lemma InOutPop(p: Pool, step: Step, w: nat)
    requires Inv(p) && (step.PopExpired? || step.PopLive?)
    ensures InOut(p, step, w)
  {
    hide Counted, FlagsOk, NoDup, Do, Disjoint;
    PopMakes(p, step);
    if p.idle != [] {
      NewestGoes(p.idle, w);
      Alone(p, w);
      Alone(p, p.idle[|p.idle| - 1]);
    }
  }

  lemma Alone(p: Pool, w: nat)
    requires Disjoint(p)
    ensures w in p.idle ==> w !in p.active && w !in p.transit
  {
  }

  lemma PopMakes(p: Pool, step: Step)
    requires step.PopExpired? || step.PopLive?
    ensures p.idle == [] ==> Do(p, step) == p
    ensures p.idle != [] ==>
              var w, p' := p.idle[|p.idle| - 1], Do(p, step);
              && p'.idle == p.idle[..|p.idle| - 1]
              && p'.active == (if step.PopLive? && !p.pings then p.active + {w} else p.active)
              && p'.transit == (if step.PopLive? && p.pings then p.transit[w := Checking] else p.transit)
  {
  }

  lemma NewestGoes(idle: seq<nat>, w: nat)
    requires NoDup(idle) && idle != []
    ensures w in idle[..|idle| - 1] <==> w in idle && w != idle[|idle| - 1]
  {
    DropLast(idle);
    assert idle == idle[..|idle| - 1] + [idle[|idle| - 1]];
  }

  lemma InOutSweep(p: Pool, step: Step, w: nat)
    requires Inv(p) && step.Sweep?
    ensures InOut(p, step, w)
  {
    hide Without, Counted, FlagsOk;
    WithoutMeaning(p.idle, step.stale);
  }

  lemma InOutPing(p: Pool, step: Step, w: nat)
    requires Inv(p) && (step.PingGet? || step.PingPut? || step.CloseDoomed?)
    ensures InOut(p, step, w)
  {
    hide Counted, FlagsOk;
  }

  lemma InOutPut(p: Pool, step: Step, w: nat)
    requires Inv(p) && (step.PutLocked? || step.UnhealthyLocked? || step.Return?)
    ensures InOut(p, step, w)
  {
    hide Counted;
  }

  lemma InOutNew(p: Pool, step: Step, w: nat)
    requires Inv(p) && (step.DialStart? || step.DialFail? || step.DialOk? || step.Activate? || step.RawPut?)
    ensures InOut(p, step, w)
  {
    hide Counted, FlagsOk;
  }

  /** A connection leaves the pool exactly so, and enters it exactly by a dial or a raw Put that finds room. */
  lemma LeavesAndEntersExactly(p: Pool, step: Step, w: nat)
    requires Inv(p)
    ensures InUse(p, w) ==> (!InUse(Do(p, step), w) <==> Drops(p, step, w))
    ensures !InUse(p, w) ==>
              (InUse(Do(p, step), w) <==> Enters(p, step, w) && (step.RawPut? ==> HasRoom(p)))
  {
    hide Do, Inv, Drops, Enters, InUse, HasRoom;
    match step {
      case PopExpired => InOutPop(p, step, w);
      case PopLive => InOutPop(p, step, w);
      case Sweep(_) => InOutSweep(p, step, w);
      case PingGet(_, _) => InOutPing(p, step, w);
      case PingPut(_, _) => InOutPing(p, step, w);
      case CloseDoomed(_) => InOutPing(p, step, w);
      case PutLocked(_, _) => InOutPut(p, step, w);
      case UnhealthyLocked(_) => InOutPut(p, step, w);
      case Return(_, _) => InOutPut(p, step, w);
      case DialStart => InOutNew(p, step, w);
      case DialFail => InOutNew(p, step, w);
      case DialOk(_) => InOutNew(p, step, w);
      case Activate(_) => InOutNew(p, step, w);
      case RawPut(_) => InOutNew(p, step, w);
    }
  }

  /**
   A lease begins exactly with the newest idle connection when nothing is pinged, with a ping of a
   popped connection that succeeds, or with a connection just dialled.
   */
  lemma LeasedExactly(p: Pool, step: Step, w: nat)
    requires Inv(p) && w !in p.active
    ensures w in Do(p, step).active <==>
              || (step == PopLive && !p.pings && IsNewest(p, w))
              || (step == PingGet(w, true) && IsStage(p, w, Checking))
              || (step == Activate(w) && IsStage(p, w, Dialed))
  {
    hide Without, Counted;
  }

  /** With room, a connection is parked, behind all others, exactly when it comes back sound or is put in raw. */
  lemma ParkedExactly(p: Pool, step: Step, w: nat)
    requires Inv(p) && w !in p.idle
    ensures w in Do(p, step).idle <==>
              HasRoom(p) && (|| (step == PutLocked(w, false) && ComesBack(p, w) && !p.pings)
                             || (step == PingPut(w, true) && IsStage(p, w, Returning))
                             || (step == RawPut(w) && !InUse(p, w)))
    ensures w in Do(p, step).idle ==> Do(p, step).idle == p.idle + [w]
  {
    hide Without, Counted;
    if step.Sweep? { WithoutMeaning(p.idle, step.stale); }
  }

  /** A connection is pinged exactly when it is the newest idle one being taken, or comes back unexpired. */
  lemma PingedExactly(p: Pool, step: Step, w: nat)
    requires Inv(p) && w !in p.transit
    ensures IsStage(Do(p, step), w, Checking) <==> step == PopLive && p.pings && IsNewest(p, w)
    ensures IsStage(Do(p, step), w, Returning) <==> step == PutLocked(w, false) && p.pings && ComesBack(p, w)
    ensures IsStage(Do(p, step), w, Doomed) <==> step.Sweep? && w in p.idle && w in step.stale
    ensures IsStage(Do(p, step), w, Dialed) <==> step == DialOk(w) && p.dialing > 0 && !InUse(p, w)
  {
    hide Without, Counted;
  }

  /** A dial begins exactly when nothing is idle and the pool is below its capacity; it fails or succeeds. */
  lemma DialsExactly(p: Pool, step: Step)
    requires Inv(p)
    ensures Do(p, step).dialing == p.dialing + 1 <==> step == DialStart && p.idle == [] && p.connCnt < p.maxCap
    ensures p.dialing == Do(p, step).dialing + 1 <==>
              p.dialing > 0 && (step == DialFail || (step.DialOk? && !InUse(p, step.w)))
    ensures step == DialFail && p.dialing > 0 ==> Do(p, step).connCnt == p.connCnt - 1
  {
  }

  /** A ping that succeeds leases the popped connection, and parks the returned one if there is room. */
  lemma SoundConnectionIsKept(p: Pool, step: Step, w: nat)
    requires Inv(p) && Pinged(p, step, w, true)
    ensures step.PingGet? ==> w in Do(p, step).active && w !in Do(p, step).returned && Do(p, step).connCnt == p.connCnt
    ensures step.PingPut? && HasRoom(p) ==> IsNewest(Do(p, step), w) && Do(p, step).connCnt == p.connCnt
  {
    hide Counted;
  }

  // ---------------------------------------------------------------- what has happened to a connection

  /** The result of the last ping since the wrapper was given its connection. */
  function LastPing(p: Pool, steps: seq<Step>, w: nat): Option<bool> {
    if steps == [] then None
    else
      var front, last := steps[..|steps| - 1], steps[|steps| - 1];
      var q := Exec(p, front);
      if Enters(q, last, w) then None
      else if Pinged(q, last, w, true) then Some(true)
      else if Pinged(q, last, w, false) then Some(false)
      else LastPing(p, front, w)
  }

  /** The connection is found unfit. */
  predicate Condemns(p: Pool, step: Step, w: nat) {
    || Pinged(p, step, w, false)
    || (step == PutLocked(w, true) && ComesBack(p, w))
    || (step == Return(w, false) && w in p.active && w !in p.returned)
    || (step == PopExpired && IsNewest(p, w))
    || (step.Sweep? && w in p.idle && w in step.stale)
  }

  /** It has been found unfit since the wrapper was given it. */
  predicate Condemned(p: Pool, steps: seq<Step>, w: nat) {
    steps != [] &&
    (var front, last := steps[..|steps| - 1], steps[|steps| - 1];
     var q := Exec(p, front);
     !Enters(q, last, w) && (Condemns(q, last, w) || Condemned(p, front, w)))
  }

  /** Out of reach: not idle, leased only until its unhealthy lease is taken back, held only to be closed. */
  ghost predicate OnItsWayOut(p: Pool, w: nat) {
    && w !in p.idle
    && (w in p.active ==> w in p.handing && !p.handing[w])
    && (w in p.transit ==> p.transit[w].Doomed?)
  }

  lemma CondemnedGoes(p: Pool, step: Step, w: nat)
    requires Inv(p) && Condemns(p, step, w)
    ensures OnItsWayOut(Do(p, step), w)
  {
    hide Without, Counted;
    if step.Sweep? { WithoutMeaning(p.idle, step.stale); }
    if p.idle != [] { DropLast(p.idle); }
  }

  lemma WayOutStays(p: Pool, step: Step, w: nat)
    requires Inv(p) && OnItsWayOut(p, w) && !Enters(p, step, w)
    ensures OnItsWayOut(Do(p, step), w)
  {
    hide Without, Counted;
    if step.Sweep? { WithoutMeaning(p.idle, step.stale); }
  }

  lemma {:induction false} CondemnedFrom(p: Pool, steps: seq<Step>, w: nat)
    requires Inv(p)
    ensures Condemned(p, steps, w) ==> OnItsWayOut(Exec(p, steps), w)
  {
    if steps != [] {
      var front, last := steps[..|steps| - 1], steps[|steps| - 1];
      CondemnedFrom(p, front, w);
      AccountingAlwaysHolds(p, front);
      hide Do, Inv, Enters, Condemns, OnItsWayOut;
      if Condemned(p, steps, w) {
        if Condemns(Exec(p, front), last, w) {
          CondemnedGoes(Exec(p, front), last, w);
        } else {
          WayOutStays(Exec(p, front), last, w);
        }
      }
    }
  }

  /**
   In every run of a new pool a connection that failed a ping, came back expired, was marked
   unhealthy or was found stale is not idle again and never leased again, until its wrapper is
   given another connection.
   */
  lemma CondemnedIsNeverHandedOut(maxIdle: nat, maxCap: nat, pings: bool, first: seq<nat>, steps: seq<Step>, last: Step,
                                  w: nat)
    requires Settings(maxIdle, maxCap, first)
    ensures var p := Opened(maxIdle, maxCap, pings, first);
            Condemned(p, steps, w) ==> OnItsWayOut(Exec(p, steps), w)
    ensures var p := Opened(maxIdle, maxCap, pings, first);
            w !in Exec(p, steps).active && w in Exec(p, steps + [last]).active ==> !Condemned(p, steps, w)
  {
    var p := Opened(maxIdle, maxCap, pings, first);
    OpenedIsAccounted(maxIdle, maxCap, pings, first);
    CondemnedFrom(p, steps, w);
    AccountingAlwaysHolds(p, steps);
    ExecSnoc(p, steps, last);
    hide Exec, Do, Condemned, Opened;
    if w !in Exec(p, steps).active { LeasedExactly(Exec(p, steps), last, w); }
  }

  lemma ExecSnoc(p: Pool, steps: seq<Step>, last: Step)
    ensures Exec(p, steps + [last]) == Do(Exec(p, steps), last)
  {
    hide Do;
    assert (steps + [last])[..|steps|] == steps;
  }

  lemma {:induction false} LastPingFrom(p: Pool, steps: seq<Step>, w: nat)
    requires Inv(p)
    ensures LastPing(p, steps, w) == Some(false) ==> !InUse(Exec(p, steps), w)
  {
    if steps != [] {
      var front, last := steps[..|steps| - 1], steps[|steps| - 1];
      LastPingFrom(p, front, w);
      AccountingAlwaysHolds(p, front);
      LeavesAndEntersExactly(Exec(p, front), last, w);
      PingedIsHeld(Exec(p, front), last, w);
      hide Do, Inv, Enters, InUse, Pinged;
    }
  }

  lemma PingedIsHeld(p: Pool, step: Step, w: nat)
    ensures Pinged(p, step, w, false) ==> InUse(p, w) && Drops(p, step, w)
  {
  }

  /**
   In every run a connection that is idle, leased or held has not been pinged since its wrapper was
   given it, or its last ping succeeded; one whose last ping failed is nowhere.
   */
  lemma LastPingSucceeded(maxIdle: nat, maxCap: nat, pings: bool, first: seq<nat>, steps: seq<Step>, w: nat)
    requires Settings(maxIdle, maxCap, first)
    ensures var p := Opened(maxIdle, maxCap, pings, first);
            InUse(Exec(p, steps), w) ==> LastPing(p, steps, w) != Some(false)
  {
    var p := Opened(maxIdle, maxCap, pings, first);
    OpenedIsAccounted(maxIdle, maxCap, pings, first);
    LastPingFrom(p, steps, w);
  }
}
