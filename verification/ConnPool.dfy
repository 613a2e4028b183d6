/**
 The connection pool of micro/pool/pool.go while it is open. The mutex is dropped
 around every dial and ping, so each step is one lock region (or one atomic counter
 update outside it) and a run interleaves any number of Get, Put, Close,
 MarkUnhealthy calls and the background sweep. Dials, pings and expiry checks come
 out as they like. A connection is named by its wrapper; a closed wrapper may be
 handed out again by a later dial.
 */
module ConnPool {
  import opened Common

  /** Where a wrapper is while only one goroutine's local variable refers to it. */
  datatype Stage =
    | Dialed      // wrapped by Get, not yet in activeConns
    | Checking    // popped from idleConns by Get, being pinged
    | Returning   // removed from activeConns by putConn, being pinged
    | Doomed      // removed from idleConns by the sweep, not yet closed

  datatype Pool = Pool(
    maxIdle: nat, maxCap: nat, pings: bool,
    connCnt: int,
    idle: seq<nat>,
    active: set<nat>,
    returned: set<nat>,          // wrappers whose `returned` flag is set
    handing: map<nat, bool>,     // flag won, lock not yet taken; true for Close, false for MarkUnhealthy
    dialing: nat,                // dials in flight
    transit: map<nat, Stage>)

  datatype Step =
    | PopExpired                 // Get drops the last idle connection
    | PopLive                    // Get takes the last idle connection, or pings it first
    | PingGet(w: nat, ok: bool)
    | DialStart | DialFail | DialOk(w: nat) | Activate(w: nat)
    | Return(w: nat, healthy: bool)            // Close or MarkUnhealthy on a lease in use
    | PutLocked(w: nat, expired: bool)         // putConn after taking the lock
    | UnhealthyLocked(w: nat)
    | PingPut(w: nat, ok: bool)
    | RawPut(w: nat)             // Put of a connection that is not one of the pool's
    | Sweep(stale: set<nat>)
    | CloseDoomed(w: nat)

  /** A pool whose constructor dialed the wrappers `first`. */
  function Opened(maxIdle: nat, maxCap: nat, pings: bool, first: seq<nat>): Pool {
    Pool(maxIdle, maxCap, pings, |first|, first, {}, {}, map[], 0, map[])
  }

  predicate InUse(p: Pool, w: nat) {
    w in p.idle || w in p.active || w in p.transit
  }

  /** The end of putConn and of a raw Put: keep the connection if there is room, else close it. */
  function Park(p: Pool, w: nat): Pool {
    if |p.idle| < p.maxIdle then p.(idle := p.idle + [w]) else p.(connCnt := p.connCnt - 1)
  }

  function Lease(p: Pool, w: nat): Pool {
    p.(active := p.active + {w}, returned := p.returned - {w})
  }

  function Condemn(m: map<nat, Stage>, out: set<nat>): map<nat, Stage> {
    m + (map w | w in out :: Doomed)
  }

  /** A step that is not possible in this state leaves it unchanged. */
  function Do(p: Pool, step: Step): Pool {
    match step
    case PopExpired => if p.idle == [] then p else p.(idle := p.idle[..|p.idle| - 1], connCnt := p.connCnt - 1)
    case PopLive =>
      if p.idle == [] then p
      else
        var w, p' := p.idle[|p.idle| - 1], p.(idle := p.idle[..|p.idle| - 1]);
        if p.pings then p'.(transit := p.transit[w := Checking]) else Lease(p', w)
    case PingGet(w, ok) =>
      if w !in p.transit || !p.transit[w].Checking? then p
      else if ok then Lease(p.(transit := p.transit - {w}), w)
      else p.(transit := p.transit - {w}, connCnt := p.connCnt - 1)
    case DialStart =>
      if p.idle == [] && p.connCnt < p.maxCap then p.(connCnt := p.connCnt + 1, dialing := p.dialing + 1) else p
    case DialFail => if p.dialing > 0 then p.(connCnt := p.connCnt - 1, dialing := p.dialing - 1) else p
    case DialOk(w) =>
      if p.dialing > 0 && !InUse(p, w)
      then p.(dialing := p.dialing - 1, transit := p.transit[w := Dialed], returned := p.returned - {w}) else p
    case Activate(w) =>
      if w in p.transit && p.transit[w].Dialed?
      then p.(transit := p.transit - {w}, active := p.active + {w}) else p
    case Return(w, healthy) =>
      if w in p.active && w !in p.returned
      then p.(returned := p.returned + {w}, handing := p.handing[w := healthy]) else p
    case PutLocked(w, expired) =>
      if w !in p.handing || !p.handing[w] then p
      else
        var p' := p.(handing := p.handing - {w}, active := p.active - {w});
        if expired then p'.(connCnt := p.connCnt - 1)
        else if p.pings then p'.(transit := p.transit[w := Returning])
        else Park(p', w)
    case UnhealthyLocked(w) =>
      if w !in p.handing || p.handing[w] then p
      else p.(handing := p.handing - {w}, active := p.active - {w}, connCnt := p.connCnt - 1)
    case PingPut(w, ok) =>
      if w !in p.transit || !p.transit[w].Returning? then p
      else
        var p' := p.(transit := p.transit - {w});
        if ok then Park(p', w) else p'.(connCnt := p.connCnt - 1)
    case RawPut(w) =>
      if InUse(p, w) then p else Park(p.(connCnt := p.connCnt + 1, returned := p.returned - {w}), w)
    case Sweep(expired) =>
      p.(idle := Without(p.idle, expired), transit := Condemn(p.transit, Elements(p.idle) * expired))
    case CloseDoomed(w) =>
      if w in p.transit && p.transit[w].Doomed?
      then p.(transit := p.transit - {w}, connCnt := p.connCnt - 1) else p
  }

  function Exec(p: Pool, steps: seq<Step>): Pool {
    if steps == [] then p else Do(Exec(p, steps[..|steps| - 1]), steps[|steps| - 1])
  }

  // ---------------------------------------------------------------- accounting

  ghost predicate Disjoint(p: Pool) {
    && (forall w :: w in p.idle ==> w !in p.active && w !in p.transit)
    && (forall w :: w in p.active ==> w !in p.transit)
  }

  /** The counter is exact. */
  ghost predicate Counted(p: Pool) {
    p.connCnt == |p.idle| + |p.active| + |p.transit| + p.dialing
  }

  /** No wrapper is in two places, the idle list respects its limit, and the flags match the leases. */
  ghost predicate Placed(p: Pool) {
    && Disjoint(p) && NoDup(p.idle) && |p.idle| <= p.maxIdle
    && FlagsOk(p)
  }

  ghost predicate FlagsOk(p: Pool) {
    && (forall w :: w in p.handing ==> w in p.active && w in p.returned)
    && (forall w :: w in p.active && w in p.returned ==> w in p.handing)
    && (forall w :: w in p.transit && p.transit[w].Dialed? ==> w !in p.returned)
  }

  ghost predicate Inv(p: Pool) {
    Counted(p) && Placed(p)
  }

  lemma RemoveFrom(m: map<nat, Stage>, w: nat)
    requires w in m
    ensures |m - {w}| == |m| - 1
  {
    assert (m - {w}).Keys == m.Keys - {w};
    assert |(m - {w}).Keys| == |m.Keys| - 1;
  }

  lemma AddTo(m: map<nat, Stage>, w: nat, st: Stage)
    requires w !in m
    ensures |m[w := st]| == |m| + 1
  {
    assert m[w := st].Keys == m.Keys + {w};
    assert |m[w := st].Keys| == |m.Keys| + 1;
  }

  lemma InvPop(p: Pool, step: Step)
    requires Inv(p) && (step.PopExpired? || step.PopLive?)
    ensures Inv(Do(p, step))
  {
    if p.idle != [] {
      var w := p.idle[|p.idle| - 1];
      DropLast(p.idle);
      assert w in p.idle;
      AddTo(p.transit, w, Checking);
    }
  }

  lemma InvPingGet(p: Pool, w: nat, ok: bool)
    requires Inv(p)
    ensures Inv(Do(p, PingGet(w, ok)))
  {
    if w in p.transit { RemoveFrom(p.transit, w); }
  }

  lemma InvActivate(p: Pool, w: nat)
    requires Inv(p)
    ensures Inv(Do(p, Activate(w)))
  {
    if w in p.transit { RemoveFrom(p.transit, w); }
  }

  lemma InvCloseDoomed(p: Pool, w: nat)
    requires Inv(p)
    ensures Inv(Do(p, CloseDoomed(w)))
  {
    if w in p.transit { RemoveFrom(p.transit, w); }
  }

  lemma InvDial(p: Pool, step: Step)
    requires Inv(p) && (step.DialStart? || step.DialFail? || step.DialOk?)
    ensures Inv(Do(p, step))
  {
    if step.DialOk? && !InUse(p, step.w) { AddTo(p.transit, step.w, Dialed); }
  }

  /** Parking a wrapper that is nowhere else balances the books. */
  lemma InvPark(p: Pool, w: nat)
    requires Inv(p.(connCnt := p.connCnt - 1)) && !InUse(p, w)
    ensures Inv(Park(p, w))
  {
  }

  lemma InvReturn(p: Pool, step: Step)
    requires Inv(p) && (step.Return? || step.UnhealthyLocked?)
    ensures Inv(Do(p, step))
  {
  }

  lemma InvPut(p: Pool, w: nat, expired: bool)
    requires Inv(p)
    ensures Inv(Do(p, PutLocked(w, expired)))
  {
    if w in p.handing && p.handing[w] {
      var p' := p.(handing := p.handing - {w}, active := p.active - {w});
      AddTo(p.transit, w, Returning);
      assert Inv(p'.(connCnt := p.connCnt - 1));
      if !expired && !p.pings { InvPark(p', w); }
    }
  }

  lemma InvPingPut(p: Pool, w: nat, ok: bool)
    requires Inv(p)
    ensures Inv(Do(p, PingPut(w, ok)))
  {
    if w in p.transit && p.transit[w].Returning? {
      RemoveFrom(p.transit, w);
      var p' := p.(transit := p.transit - {w});
      assert Inv(p'.(connCnt := p.connCnt - 1));
      if ok { InvPark(p', w); }
    }
  }

  lemma InvRawPut(p: Pool, w: nat)
    requires Inv(p)
    ensures Inv(Do(p, RawPut(w)))
  {
    if !InUse(p, w) { InvPark(p.(connCnt := p.connCnt + 1, returned := p.returned - {w}), w); }
  }

  lemma CondemnCounts(m: map<nat, Stage>, out: set<nat>)
    requires out !! m.Keys
    ensures |Condemn(m, out)| == |m| + |out|
  {
    assert Condemn(m, out).Keys == m.Keys + out;
    assert |Condemn(m, out).Keys| == |m.Keys| + |out|;
  }

  lemma SweepCounted(p: Pool, expired: set<nat>)
    requires Inv(p)
    ensures Counted(Do(p, Sweep(expired)))
  {
    hide Without, FlagsOk, Condemn;
    WithoutCounts(p.idle, expired);
    CondemnCounts(p.transit, Elements(p.idle) * expired);
  }

  lemma SweepPlaced(p: Pool, expired: set<nat>)
    requires Placed(p)
    ensures Placed(Do(p, Sweep(expired)))
  {
    hide Without;
    WithoutMeaning(p.idle, expired);
    WithoutCounts(p.idle, expired);
    var p' := Do(p, Sweep(expired));
    assert forall w :: w in p'.transit ==> w in p.transit || (w in p.idle && w in expired && p'.transit[w].Doomed?);
  }

  lemma InvSweep(p: Pool, expired: set<nat>)
    requires Inv(p)
    ensures Inv(Do(p, Sweep(expired)))
  {
    SweepCounted(p, expired);
    SweepPlaced(p, expired);
  }

  lemma InvDo(p: Pool, step: Step)
    requires Inv(p)
    ensures Inv(Do(p, step))
  {
    hide Inv, Do;
    match step {
      case PutLocked(w, expired) => InvPut(p, w, expired);
      case PingPut(w, ok) => InvPingPut(p, w, ok);
      case RawPut(w) => InvRawPut(p, w);
      case Sweep(expired) => InvSweep(p, expired);
      case PopExpired => InvPop(p, step);
      case PopLive => InvPop(p, step);
      case DialStart => InvDial(p, step);
      case DialFail => InvDial(p, step);
      case DialOk(_) => InvDial(p, step);
      case Return(_, _) => InvReturn(p, step);
      case UnhealthyLocked(_) => InvReturn(p, step);
      case PingGet(w, ok) => InvPingGet(p, w, ok);
      case Activate(w) => InvActivate(p, w);
      case CloseDoomed(w) => InvCloseDoomed(p, w);
    }
  }

  /** Connection accounting holds after every step of every run. */
  lemma {:induction false} AccountingAlwaysHolds(p: Pool, steps: seq<Step>)
    requires Inv(p)
    ensures Inv(Exec(p, steps))
  {
    if steps != [] {
      AccountingAlwaysHolds(p, steps[..|steps| - 1]);
      InvDo(Exec(p, steps[..|steps| - 1]), steps[|steps| - 1]);
    }
  }

  /** The settings NewPool accepts, and the different wrappers it dials first. */
  ghost predicate Settings(maxIdle: nat, maxCap: nat, first: seq<nat>) {
    |first| <= maxIdle <= maxCap && NoDup(first)
  }

  lemma OpenedIsAccounted(maxIdle: nat, maxCap: nat, pings: bool, first: seq<nat>)
    requires Settings(maxIdle, maxCap, first)
    ensures Inv(Opened(maxIdle, maxCap, pings, first))
  {
  }

  /** So it holds in every state a new pool can get into. */
  lemma EveryRunIsAccounted(maxIdle: nat, maxCap: nat, pings: bool, first: seq<nat>, steps: seq<Step>)
    requires Settings(maxIdle, maxCap, first)
    ensures Inv(Exec(Opened(maxIdle, maxCap, pings, first), steps))
  {
    OpenedIsAccounted(maxIdle, maxCap, pings, first);
    AccountingAlwaysHolds(Opened(maxIdle, maxCap, pings, first), steps);
  }

  // ---------------------------------------------------------------- the capacity

  /** A raw Put into a pool at its capacity whose idle list has room. */
  predicate Overfills(p: Pool, step: Step) {
    step.RawPut? && !InUse(p, step.w) && p.connCnt == p.maxCap && |p.idle| < p.maxIdle
  }

  /** The one step that can pass the capacity, and exactly when it does. */
  lemma CapKeptExactly(p: Pool, step: Step)
    requires Inv(p) && p.connCnt <= p.maxCap
    ensures Do(p, step).connCnt <= p.maxCap <==> !Overfills(p, step)
  {
  }

  lemma LimitsAreFixed(p: Pool, step: Step)
    ensures Do(p, step).maxCap == p.maxCap && Do(p, step).maxIdle == p.maxIdle
  {
  }

  lemma ExecNext(p: Pool, steps: seq<Step>, n: nat)
    requires n < |steps|
    ensures Exec(p, steps[..n + 1]) == Do(Exec(p, steps[..n]), steps[n])
  {
    hide Do;
    assert steps[..n + 1][..n] == steps[..n] && steps[..n + 1][n] == steps[n];
  }

  /** One step of a run keeps within the capacity exactly when it does not overfill. */
  lemma NextKeptExactly(p: Pool, steps: seq<Step>, n: nat)
    requires Inv(p) && n < |steps|
    ensures Exec(p, steps[..n]).connCnt <= p.maxCap ==>
              (Exec(p, steps[..n + 1]).connCnt <= p.maxCap <==> !Overfills(Exec(p, steps[..n]), steps[n]))
  {
    hide Do, Inv, Overfills, Exec;
    ExecNext(p, steps, n);
    AccountingAlwaysHolds(p, steps[..n]);
    LimitsStay(p, steps[..n]);
    if Exec(p, steps[..n]).connCnt <= p.maxCap { CapKeptExactly(Exec(p, steps[..n]), steps[n]); }
  }

  lemma {:induction false} KeptUntil(p: Pool, steps: seq<Step>, n: nat)
    requires Inv(p) && p.connCnt <= p.maxCap && n <= |steps|
    ensures (forall m :: 0 <= m < n ==> !Overfills(Exec(p, steps[..m]), steps[m])) ==>
              Exec(p, steps[..n]).connCnt <= p.maxCap
  {
    hide Inv, Overfills;
    if n == 0 {
      assert steps[..0] == [];
    } else {
      KeptUntil(p, steps, n - 1);
      NextKeptExactly(p, steps, n - 1);
    }
  }

  /** A new pool holds at most maxCap connections throughout a run if and only if no step of the run overfills it. */
  lemma CapKeptThroughout(maxIdle: nat, maxCap: nat, pings: bool, first: seq<nat>, steps: seq<Step>)
    requires Settings(maxIdle, maxCap, first)
    ensures var p := Opened(maxIdle, maxCap, pings, first);
            (forall n :: 0 <= n <= |steps| ==> Exec(p, steps[..n]).connCnt <= maxCap) <==>
              (forall n :: 0 <= n < |steps| ==> !Overfills(Exec(p, steps[..n]), steps[n]))
  {
    var p := Opened(maxIdle, maxCap, pings, first);
    OpenedIsAccounted(maxIdle, maxCap, pings, first);
    hide Inv, Overfills, Exec;
    if forall n :: 0 <= n <= |steps| ==> Exec(p, steps[..n]).connCnt <= maxCap {
      forall n | 0 <= n < |steps| ensures !Overfills(Exec(p, steps[..n]), steps[n]) {
        NextKeptExactly(p, steps, n);
        assert Exec(p, steps[..n + 1]).connCnt <= maxCap;
      }
    }
    if forall n :: 0 <= n < |steps| ==> !Overfills(Exec(p, steps[..n]), steps[n]) {
      forall n | 0 <= n <= |steps| ensures Exec(p, steps[..n]).connCnt <= maxCap { KeptUntil(p, steps, n); }
    }
  }

  /** In particular no run without raw Puts passes it. */
  lemma CapNeverExceeded(maxIdle: nat, maxCap: nat, pings: bool, first: seq<nat>, steps: seq<Step>)
    requires Settings(maxIdle, maxCap, first) && forall i :: 0 <= i < |steps| ==> !steps[i].RawPut?
    ensures Exec(Opened(maxIdle, maxCap, pings, first), steps).connCnt <= maxCap
  {
    hide Exec;
    CapKeptThroughout(maxIdle, maxCap, pings, first, steps);
    assert steps[..|steps|] == steps;
  }

  lemma {:induction false} LimitsStay(p: Pool, steps: seq<Step>)
    ensures Exec(p, steps).maxCap == p.maxCap && Exec(p, steps).maxIdle == p.maxIdle
  {
    hide Do;
    if steps != [] {
      LimitsStay(p, steps[..|steps| - 1]);
      LimitsAreFixed(Exec(p, steps[..|steps| - 1]), steps[|steps| - 1]);
    }
  }

  /** A raw Put can exceed the capacity: one leased connection of one, then a Put into the empty idle list. */
  lemma RawPutExceedsCap()
    ensures var p := Opened(1, 1, false, [0]); Inv(p) && Exec(p, [PopLive, RawPut(7)]).connCnt == 2 > p.maxCap
  {
    var p := Opened(1, 1, false, [0]);
    var steps := [PopLive, RawPut(7)];
    assert steps[..1] == [PopLive] && steps[..1][..0] == [];
    assert Exec(p, [PopLive]) == Do(p, PopLive);
    var q := Do(p, PopLive);
    assert q.idle == [] && q.active == {0} && q.transit == map[];
  }

  // ---------------------------------------------------------------- the background sweep

  datatype Wrapper = Wrapper(id: nat, created: int, lastActive: int)

  /** Idle for too long, or older than a positive lifetime. */
  predicate Expired(pc: Wrapper, now: int, maxIdleTime: int, maxLifetime: int) {
    pc.lastActive + maxIdleTime < now || (maxLifetime > 0 && pc.created + maxLifetime < now)
  }

  function Ids(pcs: seq<Wrapper>): (r: seq<nat>)
    ensures |r| == |pcs|
  {
    seq(|pcs|, i requires 0 <= i < |pcs| => pcs[i].id)
  }

  ghost predicate SplitOf(pcs: seq<Wrapper>, keep: seq<Wrapper>, gone: seq<Wrapper>, drop: set<nat>) {
    && Ids(keep) == Without(Ids(pcs), drop)
    && Elements(Ids(gone)) == Elements(Ids(pcs)) * drop
    && |keep| + |gone| == |pcs|
  }

  class IdleList {
    var idle: seq<Wrapper>
    const maxIdleTime: int
    const maxLifetime: int

    ghost function Stale(now: int): (drop: set<nat>)
      reads this
    {
      set i | 0 <= i < |idle| && Expired(idle[i], now, maxIdleTime, maxLifetime) :: idle[i].id
    }

    /** The locked part of the sweep: walks the list from the end, cutting out what has expired. */
    method SweepLocked(now: int) returns (toClose: seq<Wrapper>)
      requires NoDup(Ids(idle))
      modifies this
      ensures SplitOf(old(idle), idle, toClose, old(Stale(now)))
      ensures forall pc :: pc in toClose ==>
                pc.lastActive + maxIdleTime < now || (maxLifetime > 0 && pc.created + maxLifetime < now)
      ensures forall pc :: pc in idle ==>
                pc.lastActive + maxIdleTime >= now && (maxLifetime > 0 ==> pc.created + maxLifetime >= now)
    {
      hide SplitOf, Swept, Ids, NoDup;
      toClose := [];
      ghost var all, drop := idle, Stale(now);
      var i := |idle| - 1;
      SplitNone(drop);
      SweptNone(now, maxIdleTime, maxLifetime);
      assert all[i + 1..] == [] && idle[i + 1..] == [];
      while i >= 0
        invariant -1 <= i < |all| && |idle| > i && idle[..i + 1] == all[..i + 1]
        invariant SplitOf(all[i + 1..], idle[i + 1..], toClose, drop)
        invariant Swept(idle[i + 1..], toClose, now, maxIdleTime, maxLifetime)
      {
        var pc := idle[i];
        assert pc == all[i] && all[i..] == [pc] + all[i + 1..];
        ghost var rest := idle[i + 1..];
        StaleById(all, i, drop, now, maxIdleTime, maxLifetime);
        SplitGrows(pc, all[i + 1..], rest, toClose, drop);
        SweptGrows(pc, rest, toClose, now, maxIdleTime, maxLifetime);
        if Expired(pc, now, maxIdleTime, maxLifetime) {
          toClose := toClose + [pc];
          idle := idle[..i] + idle[i + 1..];
          assert idle[i..] == rest;
        } else {
          assert idle[i..] == [pc] + rest;
        }
        assert idle[..i] == all[..i];
        i := i - 1;
      }
      assert all[0..] == all && idle[0..] == idle;
      SweptInNumbers(idle, toClose, now, maxIdleTime, maxLifetime);
    }
  }

  ghost predicate Swept(keep: seq<Wrapper>, gone: seq<Wrapper>, now: int, maxIdleTime: int, maxLifetime: int) {
    && (forall pc :: pc in gone ==> Expired(pc, now, maxIdleTime, maxLifetime))
    && (forall pc :: pc in keep ==> !Expired(pc, now, maxIdleTime, maxLifetime))
  }

  lemma SweptNone(now: int, maxIdleTime: int, maxLifetime: int)
    ensures Swept([], [], now, maxIdleTime, maxLifetime)
  {
  }

  lemma SweptGrows(pc: Wrapper, keep: seq<Wrapper>, gone: seq<Wrapper>, now: int, maxIdleTime: int, maxLifetime: int)
    requires Swept(keep, gone, now, maxIdleTime, maxLifetime)
    ensures Expired(pc, now, maxIdleTime, maxLifetime) ==> Swept(keep, gone + [pc], now, maxIdleTime, maxLifetime)
    ensures !Expired(pc, now, maxIdleTime, maxLifetime) ==> Swept([pc] + keep, gone, now, maxIdleTime, maxLifetime)
  {
  }

  lemma SweptInNumbers(keep: seq<Wrapper>, gone: seq<Wrapper>, now: int, maxIdleTime: int, maxLifetime: int)
    requires Swept(keep, gone, now, maxIdleTime, maxLifetime)
    ensures forall pc :: pc in gone ==>
              pc.lastActive + maxIdleTime < now || (maxLifetime > 0 && pc.created + maxLifetime < now)
    ensures forall pc :: pc in keep ==>
              pc.lastActive + maxIdleTime >= now && (maxLifetime > 0 ==> pc.created + maxLifetime >= now)
  {
  }

  lemma StaleById(all: seq<Wrapper>, i: nat, drop: set<nat>, now: int, maxIdleTime: int, maxLifetime: int)
    requires NoDup(Ids(all)) && i < |all|
    requires drop == set j | 0 <= j < |all| && Expired(all[j], now, maxIdleTime, maxLifetime) :: all[j].id
    ensures all[i].id in drop <==> Expired(all[i], now, maxIdleTime, maxLifetime)
  {
    if all[i].id in drop {
      var j :| 0 <= j < |all| && Expired(all[j], now, maxIdleTime, maxLifetime) && all[j].id == all[i].id;
      assert Ids(all)[j] == Ids(all)[i];
    }
  }

  lemma SplitNone(drop: set<nat>)
    ensures SplitOf([], [], [], drop)
  {
  }

  lemma SplitGrows(pc: Wrapper, pcs: seq<Wrapper>, keep: seq<Wrapper>, gone: seq<Wrapper>, drop: set<nat>)
    requires SplitOf(pcs, keep, gone, drop)
    ensures pc.id in drop ==> SplitOf([pc] + pcs, keep, gone + [pc], drop)
    ensures pc.id !in drop ==> SplitOf([pc] + pcs, [pc] + keep, gone, drop)
  {
    WithoutFront(pc.id, Ids(pcs), drop);
    assert Ids([pc] + pcs) == [pc.id] + Ids(pcs);
    assert Ids([pc] + keep) == [pc.id] + Ids(keep);
    assert Ids(gone + [pc]) == Ids(gone) + [pc.id];
    assert Elements([pc.id] + Ids(pcs)) == {pc.id} + Elements(Ids(pcs));
    assert Elements(Ids(gone) + [pc.id]) == Elements(Ids(gone)) + {pc.id};
  }
}
