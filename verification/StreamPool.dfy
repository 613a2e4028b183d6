/**
 The pool of multiplexed streams to one endpoint (micro/net/pool.go). `Get` drops the
 lock while it dials, so a run interleaves the lock regions of any number of Gets with
 the background maintenance and Close. A stream may die at any moment; each pass over
 the list finds some set of streams dead, whatever that set is.
 */
module StreamPool {
  import opened Common

  datatype Pool = Pool(maxOpen: nat, streams: seq<nat>, dialing: nat, closed: bool, everOpened: nat, overflows: nat)

  datatype Step =
    | Compact(dead: set<nat>)            // Stats, or a Get that reuses a stream
    | DialStart(dead: set<nat>)          // Get finds room: compacts and counts a dial
    | DialFail
    | DialOk(dead: set<nat>)             // Get retakes the lock with a new stream
    | Maintain(gone: set<nat>)           // streams found dead, expired or idle too long
    | Remove(s: nat)                     // a heartbeat failed
    | Close

  function Opened(maxOpen: int): Pool {
    Pool(if maxOpen <= 0 then 1 else maxOpen, [], 0, false, 0, 0)
  }

  /** A step that is not possible in this state leaves it unchanged; stream names are never reused. */
  function Do(p: Pool, step: Step): Pool {
    match step
    case Compact(dead) => p.(streams := Without(p.streams, dead))
    case DialStart(dead) =>
      var kept := Without(p.streams, dead);
      if !p.closed && |kept| + p.dialing < p.maxOpen then p.(streams := kept, dialing := p.dialing + 1) else p
    case DialFail => if p.dialing > 0 then p.(dialing := p.dialing - 1) else p
    case DialOk(dead) =>
      if p.dialing == 0 then p
      else
        var p' := p.(dialing := p.dialing - 1, everOpened := p.everOpened + 1);
        if p.closed then p'
        else
          var kept := Without(p.streams, dead);
          if |kept| >= p.maxOpen then p'.(streams := kept, overflows := p.overflows + 1)
          else p'.(streams := kept + [p.everOpened])
    case Maintain(gone) => if p.closed then p else p.(streams := Without(p.streams, gone))
    case Remove(s) => p.(streams := Without(p.streams, {s}))
    case Close => if p.closed then p else p.(closed := true, streams := [])
  }

  function Exec(maxOpen: int, steps: seq<Step>): Pool {
    if steps == [] then Opened(maxOpen) else Do(Exec(maxOpen, steps[..|steps| - 1]), steps[|steps| - 1])
  }

  ghost predicate Inv(p: Pool) {
    && |p.streams| + p.dialing <= p.maxOpen
    && NoDup(p.streams) && (forall s :: s in p.streams ==> s < p.everOpened)
    && (p.closed ==> p.streams == [])
    && p.overflows == 0
  }

  lemma InvDo(p: Pool, step: Step)
    requires Inv(p)
    ensures Inv(Do(p, step))
    ensures step.DialOk? && p.dialing > 0 && !p.closed ==> |Without(p.streams, step.dead)| < p.maxOpen
  {
    match step {
      case Compact(d) => WithoutMeaning(p.streams, d);
      case DialStart(d) => WithoutMeaning(p.streams, d);
      case DialOk(d) =>
        WithoutMeaning(p.streams, d);
        assert p.everOpened !in Without(p.streams, d);
      case Maintain(d) => WithoutMeaning(p.streams, d);
      case Remove(s) => WithoutMeaning(p.streams, {s});
      case _ =>
    }
  }

  lemma {:induction false} InvAlways(maxOpen: int, steps: seq<Step>)
    ensures Inv(Exec(maxOpen, steps))
  {
    if steps != [] {
      InvAlways(maxOpen, steps[..|steps| - 1]);
      InvDo(Exec(maxOpen, steps[..|steps| - 1]), steps[|steps| - 1]);
    }
  }

  lemma {:induction false} MaxOpenIsFixed(maxOpen: int, steps: seq<Step>)
    ensures Exec(maxOpen, steps).maxOpen == if maxOpen <= 0 then 1 else maxOpen
  {
    if steps != [] { MaxOpenIsFixed(maxOpen, steps[..|steps| - 1]); }
  }

  /**
   In every interleaving, open streams and dials in flight never exceed maxOpen, no stream is
   listed twice, and the branch for a pool found full after a dial has never been taken.
   */
  lemma PoolIsBounded(maxOpen: int, steps: seq<Step>)
    ensures var p := Exec(maxOpen, steps);
            && |p.streams| + p.dialing <= (if maxOpen <= 0 then 1 else maxOpen)
            && NoDup(p.streams) && p.overflows == 0
            && (p.closed ==> p.streams == [])
  {
    InvAlways(maxOpen, steps);
    MaxOpenIsFixed(maxOpen, steps);
  }

  /** The step takes the stream out of the list: it was found dead, expired or idle, or the pool closes. */
  predicate TakesOut(p: Pool, step: Step, s: nat) {
    match step
    case Compact(dead) => s in dead
    case DialStart(dead) => s in dead && !p.closed && |Without(p.streams, dead)| + p.dialing < p.maxOpen
    case DialFail => false
    case DialOk(dead) => s in dead && p.dialing > 0 && !p.closed
    case Maintain(gone) => s in gone && !p.closed
    case Remove(r) => s == r
    case Close => !p.closed
  }

  /** No stream is lost otherwise, and the only one that ever comes is that of a dial into an open pool. */
  lemma ListedExactly(p: Pool, step: Step, s: nat)
    requires Inv(p)
    ensures s in Do(p, step).streams <==>
              || (s in p.streams && !TakesOut(p, step, s))
              || (step.DialOk? && p.dialing > 0 && !p.closed && s == p.everOpened)
    ensures p.closed ==> Do(p, step).closed && Do(p, step).streams == []
  {
    InvDo(p, step);
    hide Without;
    match step {
      case Compact(d) => WithoutMeaning(p.streams, d);
      case DialStart(d) => WithoutMeaning(p.streams, d);
      case DialOk(d) => WithoutMeaning(p.streams, d);
      case Maintain(d) => WithoutMeaning(p.streams, d);
      case Remove(r) => WithoutMeaning(p.streams, {r});
      case _ =>
    }
  }

  /** The pool is closed exactly if Close was called. */
  lemma {:induction false} ClosedExactly(maxOpen: int, steps: seq<Step>)
    ensures Exec(maxOpen, steps).closed <==> Close in steps
  {
    if steps != [] {
      ClosedExactly(maxOpen, steps[..|steps| - 1]);
      assert steps == steps[..|steps| - 1] + [steps[|steps| - 1]];
    }
  }

  /** Dials begun, and dials that came to an end, whichever way. */
  function DialsBegun(maxOpen: int, steps: seq<Step>): nat {
    if steps == [] then 0
    else
      var front, last := steps[..|steps| - 1], steps[|steps| - 1];
      var p := Exec(maxOpen, front);
      DialsBegun(maxOpen, front)
      + if last.DialStart? && !p.closed && |Without(p.streams, last.dead)| + p.dialing < p.maxOpen then 1 else 0
  }

  function DialsOver(maxOpen: int, steps: seq<Step>): nat {
    if steps == [] then 0
    else
      var front, last := steps[..|steps| - 1], steps[|steps| - 1];
      DialsOver(maxOpen, front)
      + if (last.DialFail? || last.DialOk?) && Exec(maxOpen, front).dialing > 0 then 1 else 0
  }

  /** The dials in flight are those begun and not over: a dial that fails, or ends in a closed pool, frees its place. */
  lemma {:induction false} DialingIsExact(maxOpen: int, steps: seq<Step>)
    ensures Exec(maxOpen, steps).dialing == DialsBegun(maxOpen, steps) - DialsOver(maxOpen, steps)
  {
    if steps != [] { DialingIsExact(maxOpen, steps[..|steps| - 1]); }
  }

  // ---------------------------------------------------------------- the lock regions as the source runs them

  datatype Decision = PoolClosed | Reuse(s: nat) | Dial | Wait

  /** A least loaded live stream, the earliest in the list among equals. */
  ghost predicate IsBest(streams: seq<nat>, dead: set<nat>, load: map<nat, int>, k: nat) {
    && k < |streams| && streams[k] !in dead && streams[k] in load
    && (forall j :: 0 <= j < |streams| && streams[j] !in dead && streams[j] in load ==>
        load[streams[k]] <= load[streams[j]])
    && (forall j :: 0 <= j < k && streams[j] !in dead && streams[j] in load ==> load[streams[k]] < load[streams[j]])
  }

  class LockedPool {
    var streams: seq<nat>
    var dialing: nat
    var closed: bool
    const maxOpen: nat
    var everOpened: nat   // names for new streams

    ghost function View(): Pool reads this {
      Pool(maxOpen, streams, dialing, closed, everOpened, 0)
    }

    /** Overwrites the list from the front with the survivors, then cuts it. */
    method CompactLocked(dead: set<nat>)
      modifies this`streams
      ensures streams == Without(old(streams), dead)
    {
      ghost var all := streams;
      var n, i := 0, 0;
      while i < |streams|
        invariant 0 <= n <= i <= |streams| == |all|
        invariant forall j :: i <= j < |all| ==> streams[j] == all[j]
        invariant streams[..n] == Without(all[..i], dead)
      {
        var s := streams[i];
        assert s == all[i] && all[..i + 1][..i] == all[..i];
        if s !in dead {
          streams := streams[n := s];
          n := n + 1;
        }
        i := i + 1;
      }
      assert all[..|all|] == all;
      streams := streams[..n];
    }

    /** The scan that picks the stream to reuse. */
    method PickLocked(dead: set<nat>, load: map<nat, int>) returns (best: Option<nat>)
      requires forall s :: s in streams ==> s in load
      ensures best.None? <==> forall s :: s in streams ==> s in dead
      ensures best.Some? ==> exists k: nat :: IsBest(streams, dead, load, k) && streams[k] == best.value
    {
      best := None;
      var bestLoad := -1;
      ghost var at := 0;
      for i := 0 to |streams|
        invariant best.None? <==> forall j :: 0 <= j < i ==> streams[j] in dead
        invariant best.Some? ==> at < i && IsBest(streams[..i], dead, load, at) && streams[at] == best.value
        invariant best.Some? ==> bestLoad == load[best.value]
      {
        var s := streams[i];
        if s !in dead {
          if best.None? || load[s] < bestLoad {
            best, bestLoad, at := Some(s), load[s], i;
          }
        }
        assert streams[..i + 1] == streams[..i] + [s];
      }
      assert streams[..|streams|] == streams;
    }

    /** The first lock region of Get, up to the dial, the reuse or the wait. */
    method EnterGet(dead: set<nat>, deadLater: set<nat>, load: map<nat, int>) returns (d: Decision)
      requires Inv(View()) && forall s :: s in streams ==> s in load
      modifies this
      ensures Inv(View())
      ensures d.PoolClosed? <==> old(closed)
      ensures d.PoolClosed? ==> View() == old(View())
      ensures d.Dial? ==> View() == Do(old(View()), DialStart(dead)) && dialing == old(dialing) + 1
      ensures d.Dial? ==> forall s :: s in streams && s !in deadLater ==> s in load && load[s] >= 32
      ensures d.Reuse? || d.Wait? ==> View() == Do(old(View()), Compact(dead))
      ensures d.Reuse? ==> exists k: nat :: IsBest(streams, deadLater, load, k) && streams[k] == d.s
      ensures d.Reuse? ==> |streams| + dialing >= maxOpen || load[d.s] < 32
      ensures d.Wait? ==> |streams| + dialing == maxOpen && forall s :: s in streams ==> s in deadLater
    {
      if closed {
        return PoolClosed;
      }
      WithoutMeaning(streams, dead);
      CompactLocked(dead);
      var best := PickLocked(deadLater, load);
      if best.Some? && (|streams| + dialing >= maxOpen || load[best.value] < 32) {
        return Reuse(best.value);
      }
      if |streams| + dialing < maxOpen {
        dialing := dialing + 1;
        return Dial;
      }
      return Wait;
    }

    /** The second lock region of Get, after a dial that succeeded: the new stream always fits. */
    method FinishDial(dead: set<nat>) returns (added: Option<nat>)
      requires Inv(View()) && dialing > 0
      modifies this
      ensures Inv(View()) && View() == Do(old(View()), DialOk(dead))
      ensures added.None? <==> old(closed)
      ensures added.Some? ==> added.value !in old(streams) && streams == Without(old(streams), dead) + [added.value]
    {
      InvDo(View(), DialOk(dead));
      var s := everOpened;
      everOpened := everOpened + 1;
      dialing := dialing - 1;
      if closed {
        return None;
      }
      CompactLocked(dead);
      streams := streams + [s];
      return Some(s);
    }

    method ClosePool() returns (toClose: seq<nat>)
      requires Inv(View())
      modifies this
      ensures Inv(View()) && View() == Do(old(View()), Close)
      ensures toClose == old(streams)
    {
      toClose := streams;
      closed, streams := true, [];
    }
  }
}
