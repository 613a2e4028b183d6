/**
 The request multiplexer of one client connection (micro/net/stream.go): callers
 register a one-slot channel under their request id, the read loop hands arriving
 frames to the channel registered for the frame's id, and closing the stream fails
 whoever is still registered. Each step below is one lock region or one channel
 operation, so a sequence of steps is an interleaving of any number of callers,
 the read loop and the thread that closes the stream. The peer may send any frame
 at any time.
 */
module Multiplexer {
  import opened Common

  datatype Result = Reply(id: nat, payload: string) | Failure

  /** A channel of capacity one: everything ever put into it, and how many of those were received. */
  datatype Chan = Chan(owner: nat, put: seq<Result>, taken: nat)

  datatype Phase =
    | Ready                               // has its request id
    | Rejected                            // register refused it
    | Writing(ch: nat)                    // registered, writing the request
    | Waiting(ch: nat)                    // blocked on its channel or its context
    | Leaving(ch: nat, got: Option<Result>)  // about to run the deferred unregister
    | Finished(ch: nat, got: Option<Result>)

  datatype Caller = Caller(id: nat, phase: Phase)

  datatype Stream = Stream(
    reqID: nat,                           // the client's request id counter
    callers: map<nat, Caller>,
    chans: seq<Chan>,
    pending: map<nat, nat>,               // request id -> channel
    closed: bool,
    dispatching: Option<(nat, Result)>,   // taken out of pending by the read loop, not sent yet
    failing: set<nat>,                    // taken out of pending by failAll, not sent yet
    abandoned: set<nat>,                  // taken out of pending by unregister
    dropped: nat)                         // times a send found the channel full

  datatype Step =
    | Begin(c: nat, given: nat)           // a call with the id the user gave, 0 for none
    | OtherStream                         // another stream of the client draws an id
    | Register(c: nat)
    | Written(c: nat)
    | WriteFailed(c: nat)
    | Arrive(id: nat, payload: string)
    | Deliver
    | FailAll
    | FailOne(ch: nat)
    | Receive(c: nat)
    | GiveUp(c: nat)
    | Unregister(c: nat)

  const INITIAL := Stream(0, map[], [], map[], false, None, {}, {}, 0)

  function At(s: Stream, c: nat, phase: Phase): Stream
    requires c in s.callers
  {
    s.(callers := s.callers[c := s.callers[c].(phase := phase)])
  }

  /** A non-blocking send: the `default` branch drops the result. */
  function Send(s: Stream, ch: nat, res: Result): Stream
    requires ch < |s.chans|
  {
    var k := s.chans[ch];
    if |k.put| - k.taken < 1 then s.(chans := s.chans[ch := k.(put := k.put + [res])])
    else s.(dropped := s.dropped + 1)
  }

  /** A step that is not possible in this state leaves it unchanged. */
  function Do(s: Stream, step: Step): Stream {
    match step
    case Begin(c, given) =>
      if c in s.callers then s
      else if given != 0 then s.(callers := s.callers[c := Caller(given, Ready)])
      else s.(reqID := s.reqID + 1, callers := s.callers[c := Caller(s.reqID + 1, Ready)])
    case OtherStream => s.(reqID := s.reqID + 1)
    case Register(c) =>
      if c !in s.callers || !s.callers[c].phase.Ready? then s
      else if s.closed || s.callers[c].id in s.pending then At(s, c, Rejected)
      else
        var id, ch := s.callers[c].id, |s.chans|;
        At(s.(chans := s.chans + [Chan(id, [], 0)], pending := s.pending[id := ch]), c, Writing(ch))
    case Written(c) =>
      if c in s.callers && s.callers[c].phase.Writing? then At(s, c, Waiting(s.callers[c].phase.ch)) else s
    case WriteFailed(c) =>
      if c in s.callers && s.callers[c].phase.Writing? then At(s, c, Leaving(s.callers[c].phase.ch, None)) else s
    case Arrive(id, payload) =>
      if s.dispatching.None? && id in s.pending
      then s.(pending := s.pending - {id}, dispatching := Some((s.pending[id], Reply(id, payload)))) else s
    case Deliver =>
      if s.dispatching.Some? && s.dispatching.value.0 < |s.chans|
      then Send(s, s.dispatching.value.0, s.dispatching.value.1).(dispatching := None) else s
    case FailAll =>
      if s.closed then s else s.(closed := true, failing := s.pending.Values, pending := map[])
    case FailOne(ch) =>
      if ch in s.failing && ch < |s.chans| then Send(s, ch, Failure).(failing := s.failing - {ch}) else s
    case Receive(c) =>
      if c in s.callers && s.callers[c].phase.Waiting? && s.callers[c].phase.ch < |s.chans| then
        var ch := s.callers[c].phase.ch;
        var k := s.chans[ch];
        if k.taken < |k.put|
        then At(s.(chans := s.chans[ch := k.(taken := k.taken + 1)]), c, Leaving(ch, Some(k.put[k.taken]))) else s
      else s
    case GiveUp(c) =>
      if c in s.callers && s.callers[c].phase.Waiting? then At(s, c, Leaving(s.callers[c].phase.ch, None)) else s
    case Unregister(c) =>
      if c in s.callers && s.callers[c].phase.Leaving? then
        var id, p := s.callers[c].id, s.callers[c].phase;
        var gone := if id in s.pending then {s.pending[id]} else {};
        At(s.(pending := s.pending - {id}, abandoned := s.abandoned + gone), c, Finished(p.ch, p.got))
      else s
  }

  function Exec(steps: seq<Step>): Stream {
    if steps == [] then INITIAL else Do(Exec(steps[..|steps| - 1]), steps[|steps| - 1])
  }

  // ---------------------------------------------------------------- ownership

  datatype Place = Pending | Dispatcher | Failer | Delivered | Abandoned

  ghost predicate Holds(s: Stream, place: Place, ch: nat)
    requires ch < |s.chans|
  {
    match place
    case Pending => ch in s.pending.Values
    case Dispatcher => s.dispatching.Some? && s.dispatching.value.0 == ch
    case Failer => ch in s.failing
    case Delivered => s.chans[ch].put != []
    case Abandoned => ch in s.abandoned
  }

  ghost predicate OneOwner(s: Stream, ch: nat)
    requires ch < |s.chans|
  {
    exists place :: Holds(s, place, ch) && forall other :: Holds(s, other, ch) ==> other == place
  }

  /** The single place in effect, as five mutually exclusive cases. */
  ghost predicate Owned(s: Stream, ch: nat)
    requires ch < |s.chans|
  {
    var pending, put, abandoned, failing := s.chans[ch].owner in s.pending && s.pending[s.chans[ch].owner] == ch,
      s.chans[ch].put != [], ch in s.abandoned, ch in s.failing;
    var dispatching := s.dispatching.Some? && s.dispatching.value.0 == ch;
    || (pending && !put && !abandoned && !failing && !dispatching)
    || (!pending && put && !abandoned && !failing && !dispatching)
    || (!pending && !put && abandoned && !failing && !dispatching)
    || (!pending && !put && !abandoned && failing && !dispatching)
    || (!pending && !put && !abandoned && !failing && dispatching)
  }

  ghost predicate ChanOk(s: Stream, ch: nat)
    requires ch < |s.chans|
  {
    var k := s.chans[ch];
    && |k.put| <= 1 && k.taken <= |k.put|
    && (forall r :: r in k.put ==> r.Failure? || r.id == k.owner)
    && Owned(s, ch)
  }

  predicate HasChan(p: Phase) {
    !p.Ready? && !p.Rejected?
  }

  ghost predicate CallerOk(s: Stream, a: Caller) {
    && (HasChan(a.phase) ==> a.phase.ch < |s.chans| && s.chans[a.phase.ch].owner == a.id)
    && (a.phase.Writing? || a.phase.Waiting? ==> s.chans[a.phase.ch].taken == 0)
    && (a.phase.Leaving? || a.phase.Finished? ==>
          (a.phase.got.Some? && a.phase.got.value.Reply? ==> a.phase.got.value.id == a.id))
  }

  ghost predicate HandoverOk(s: Stream, h: (nat, Result)) {
    h.0 < |s.chans| && h.1.Reply? && h.1.id == s.chans[h.0].owner
  }

  /** No two callers have the same channel, even when they have the same id. */
  ghost predicate OwnChannels(s: Stream) {
    forall c, d :: c in s.callers && d in s.callers && c != d ==>
      HasChan(s.callers[c].phase) && HasChan(s.callers[d].phase) ==> s.callers[c].phase.ch != s.callers[d].phase.ch
  }

  /** What every run keeps, whatever the ids. */
  ghost predicate Inv(s: Stream) {
    && OwnChannels(s)
    && (forall ch :: 0 <= ch < |s.chans| ==> ChanOk(s, ch))
    && (forall c :: c in s.callers ==> CallerOk(s, s.callers[c]))
    && (forall id :: id in s.pending ==> s.pending[id] < |s.chans| && s.chans[s.pending[id]].owner == id)
    && (s.dispatching.Some? ==> HandoverOk(s, s.dispatching.value))
    && (forall ch :: ch in s.failing || ch in s.abandoned ==> ch < |s.chans|)
    && (s.closed ==> s.pending == map[]) && (!s.closed ==> s.failing == {})
    && s.dropped == 0
  }

  /** A channel is as it was when nothing that could hold it has changed. */
  lemma SameChan(s: Stream, s': Stream, ch: nat)
    requires ch < |s.chans| && ChanOk(s, ch)
    requires s'.chans == s.chans && s'.pending == s.pending && s'.dispatching == s.dispatching
    requires s'.failing == s.failing && s'.abandoned == s.abandoned
    ensures ChanOk(s', ch)
  {
  }

  lemma InvBegin(s: Stream, step: Step)
    requires Inv(s) && (step.Begin? || step.OtherStream?)
    ensures Inv(Do(s, step))
  {
    var s' := Do(s, step);
    assert OwnChannels(s');
    forall c | c in s'.callers ensures CallerOk(s', s'.callers[c]) {
      if c in s.callers { assert CallerOk(s, s.callers[c]); }
    }
    hide ChanOk, CallerOk, OwnChannels;
    forall ch | 0 <= ch < |s.chans| ensures ChanOk(s', ch) { SameChan(s, s', ch); }
  }

  lemma RegisterChans(s: Stream, c: nat, ch: nat)
    requires Inv(s) && ch < |Do(s, Register(c)).chans|
    ensures ChanOk(Do(s, Register(c)), ch)
  {
    if ch < |s.chans| { assert ChanOk(s, ch); }
  }

  lemma RegisterCaller(s: Stream, c: nat, d: nat)
    requires Inv(s) && d in s.callers
    ensures Do(s, Register(c)).callers.Keys == s.callers.Keys
            && CallerOk(Do(s, Register(c)), Do(s, Register(c)).callers[d])
  {
    hide ChanOk;
    assert CallerOk(s, s.callers[d]);
  }

  lemma RegisterOwn(s: Stream, c: nat)
    requires Inv(s)
    ensures OwnChannels(Do(s, Register(c)))
  {
    hide ChanOk;
    forall d | d in s.callers && HasChan(s.callers[d].phase) ensures s.callers[d].phase.ch < |s.chans| {
      assert CallerOk(s, s.callers[d]);
    }
    hide CallerOk;
  }

  lemma InvRegister(s: Stream, c: nat)
    requires Inv(s)
    ensures Inv(Do(s, Register(c)))
  {
    hide ChanOk, CallerOk, OwnChannels;
    RegisterOwn(s, c);
    var s' := Do(s, Register(c));
    forall ch | 0 <= ch < |s'.chans| ensures ChanOk(s', ch) { RegisterChans(s, c, ch); }
    forall d | d in s'.callers ensures CallerOk(s', s'.callers[d]) { RegisterCaller(s, c, d); }
  }

  lemma InvMove(s: Stream, c: nat, p: Phase)
    requires Inv(s) && c in s.callers
    requires s.callers[c].phase.Writing? || s.callers[c].phase.Waiting?
    requires p == Waiting(s.callers[c].phase.ch) || p == Leaving(s.callers[c].phase.ch, None)
    ensures Inv(At(s, c, p))
  {
    hide ChanOk;
    var s' := At(s, c, p);
    forall ch | 0 <= ch < |s'.chans| ensures ChanOk(s', ch) { SameChan(s, s', ch); }
    forall d | d in s'.callers ensures CallerOk(s', s'.callers[d]) { assert CallerOk(s, s.callers[d]); }
  }

  lemma InvCaller(s: Stream, step: Step)
    requires Inv(s) && (step.Written? || step.WriteFailed? || step.GiveUp?)
    ensures Inv(Do(s, step))
  {
    hide Inv;
    if step.c in s.callers {
      var p := s.callers[step.c].phase;
      if (step.Written? || step.WriteFailed?) && p.Writing? {
        InvMove(s, step.c, if step.Written? then Waiting(p.ch) else Leaving(p.ch, None));
      } else if step.GiveUp? && p.Waiting? {
        InvMove(s, step.c, Leaving(p.ch, None));
      }
    }
  }

  lemma ReceiveChans(s: Stream, c: nat, ch: nat)
    requires Inv(s) && ch < |s.chans|
    ensures |Do(s, Receive(c)).chans| == |s.chans| && ChanOk(Do(s, Receive(c)), ch)
  {
    assert ChanOk(s, ch);
  }

  lemma ReceiveCaller(s: Stream, c: nat, d: nat)
    requires Inv(s) && d in s.callers
    ensures Do(s, Receive(c)).callers.Keys == s.callers.Keys
            && CallerOk(Do(s, Receive(c)), Do(s, Receive(c)).callers[d])
  {
    assert CallerOk(s, s.callers[d]);
    if c in s.callers && s.callers[c].phase.Waiting? {
      assert CallerOk(s, s.callers[c]);
      var k := s.chans[s.callers[c].phase.ch];
      assert ChanOk(s, s.callers[c].phase.ch);
      if k.taken < |k.put| { assert k.put[k.taken] in k.put; }
    }
    hide ChanOk;
  }

  lemma InvReceive(s: Stream, c: nat)
    requires Inv(s)
    ensures Inv(Do(s, Receive(c)))
  {
    hide ChanOk, CallerOk;
    var s' := Do(s, Receive(c));
    assert |s'.chans| == |s.chans|;
    forall ch | 0 <= ch < |s'.chans| ensures ChanOk(s', ch) { ReceiveChans(s, c, ch); }
    forall d | d in s'.callers ensures CallerOk(s', s'.callers[d]) { ReceiveCaller(s, c, d); }
  }

  lemma SendChans(s: Stream, step: Step, ch: nat)
    requires Inv(s) && (step.Deliver? || step.FailOne?) && ch < |Do(s, step).chans|
    ensures |Do(s, step).chans| == |s.chans| && ChanOk(Do(s, step), ch) && Do(s, step).dropped == 0
    ensures Do(s, step).chans[ch].owner == s.chans[ch].owner && Do(s, step).chans[ch].taken == s.chans[ch].taken
  {
    assert step.Deliver? && s.dispatching.Some? ==> ChanOk(s, s.dispatching.value.0);
    assert step.FailOne? && step.ch in s.failing ==> ChanOk(s, step.ch);
    assert ChanOk(s, ch);
  }

  lemma InvSend(s: Stream, step: Step)
    requires Inv(s) && (step.Deliver? || step.FailOne?)
    ensures Inv(Do(s, step))
  {
    hide ChanOk, Send;
    var s' := Do(s, step);
    SendShape(s, step);
    forall ch | 0 <= ch < |s'.chans|
      ensures ChanOk(s', ch) && s'.chans[ch].owner == s.chans[ch].owner && s'.chans[ch].taken == s.chans[ch].taken
    {
      SendChans(s, step, ch);
    }
    forall d | d in s'.callers ensures CallerOk(s', s'.callers[d]) { assert CallerOk(s, s.callers[d]); }
  }

  lemma SendShape(s: Stream, step: Step)
    requires Inv(s) && (step.Deliver? || step.FailOne?)
    ensures var s' := Do(s, step);
            && |s'.chans| == |s.chans| && s'.callers == s.callers && s'.reqID == s.reqID && s'.pending == s.pending
            && s'.abandoned == s.abandoned && s'.closed == s.closed && s'.failing <= s.failing && s'.dropped == 0
            && (s'.dispatching.Some? ==> s'.dispatching == s.dispatching)
  {
    assert step.Deliver? && s.dispatching.Some? ==> ChanOk(s, s.dispatching.value.0);
    assert step.FailOne? && step.ch in s.failing ==> ChanOk(s, step.ch);
  }

  lemma HandoverChans(s: Stream, step: Step, ch: nat)
    requires Inv(s) && (step.Arrive? || step.FailAll?) && ch < |s.chans|
    ensures Do(s, step).chans == s.chans && ChanOk(Do(s, step), ch)
  {
    assert ChanOk(s, ch);
    if step.FailAll? && ch in s.pending.Values { PendingIsByOwner(s, ch); }
  }

  lemma InvHandover(s: Stream, step: Step)
    requires Inv(s) && (step.Arrive? || step.FailAll?)
    ensures Inv(Do(s, step))
  {
    hide ChanOk;
    var s' := Do(s, step);
    forall ch | 0 <= ch < |s'.chans| ensures ChanOk(s', ch) { HandoverChans(s, step, ch); }
    forall d | d in s'.callers ensures CallerOk(s', s'.callers[d]) { assert CallerOk(s, s.callers[d]); }
  }

  lemma UnregisterChans(s: Stream, c: nat, ch: nat)
    requires Inv(s) && ch < |s.chans|
    ensures Do(s, Unregister(c)).chans == s.chans && ChanOk(Do(s, Unregister(c)), ch)
  {
    assert ChanOk(s, ch);
  }

  lemma InvUnregister(s: Stream, c: nat)
    requires Inv(s)
    ensures Inv(Do(s, Unregister(c)))
  {
    hide ChanOk;
    var s' := Do(s, Unregister(c));
    forall ch | 0 <= ch < |s'.chans| ensures ChanOk(s', ch) { UnregisterChans(s, c, ch); }
    forall d | d in s'.callers ensures CallerOk(s', s'.callers[d]) { assert CallerOk(s, s.callers[d]); }
  }

  lemma InvDo(s: Stream, step: Step)
    requires Inv(s)
    ensures Inv(Do(s, step))
  {
    hide Inv, Do;
    match step {
      case Begin(_, _) => InvBegin(s, step);
      case OtherStream => InvBegin(s, step);
      case Register(c) => InvRegister(s, c);
      case Written(_) => InvCaller(s, step);
      case WriteFailed(_) => InvCaller(s, step);
      case GiveUp(_) => InvCaller(s, step);
      case Receive(c) => InvReceive(s, c);
      case Deliver => InvSend(s, step);
      case FailOne(_) => InvSend(s, step);
      case Arrive(_, _) => InvHandover(s, step);
      case FailAll => InvHandover(s, step);
      case Unregister(c) => InvUnregister(s, c);
    }
  }

  /** The ownership invariant holds in every run, also when calls share an id. */
  lemma {:induction false} InvAlways(steps: seq<Step>)
    ensures Inv(Exec(steps))
  {
    if steps != [] {
      InvAlways(steps[..|steps| - 1]);
      hide Inv, Do;
      InvDo(Exec(steps[..|steps| - 1]), steps[|steps| - 1]);
    }
  }

  // ---------------------------------------------------------------- what every run guarantees

  /** Ownership: each channel is in exactly one place, and at most one result ever enters it. */
  lemma ChannelHasOneOwner(steps: seq<Step>, ch: nat)
    ensures ch < |Exec(steps).chans| ==> OneOwner(Exec(steps), ch) && |Exec(steps).chans[ch].put| <= 1
  {
    InvAlways(steps);
    hide Exec, Inv;
    if ch < |Exec(steps).chans| { InvMeansOneOwner(Exec(steps), ch); }
  }

  lemma InvMeansOneOwner(s: Stream, ch: nat)
    requires Inv(s) && ch < |s.chans|
    ensures OneOwner(s, ch) && |s.chans[ch].put| <= 1
  {
    assert ChanOk(s, ch);
    PendingIsByOwner(s, ch);
    var place := if s.chans[ch].put != [] then Delivered else if ch in s.abandoned then Abandoned
                 else if ch in s.failing then Failer
                 else if s.dispatching.Some? && s.dispatching.value.0 == ch then Dispatcher else Pending;
    assert Holds(s, place, ch);
    forall other | Holds(s, other, ch) ensures other == place {}
  }

  lemma PendingIsByOwner(s: Stream, ch: nat)
    requires Inv(s) && ch < |s.chans|
    ensures ch in s.pending.Values <==> s.chans[ch].owner in s.pending && s.pending[s.chans[ch].owner] == ch
  {
    if ch in s.pending.Values {
      var id :| id in s.pending && s.pending[id] == ch;
      assert s.chans[s.pending[id]].owner == id;
    }
  }

  /** No send ever finds the channel full, so no result is silently dropped. */
  lemma NothingIsDropped(steps: seq<Step>)
    ensures Exec(steps).dropped == 0
  {
    InvAlways(steps);
  }

  /** A result handed to a caller is an error or a reply that carries the caller's own request id. */
  lemma ReplyIsForTheCaller(steps: seq<Step>, c: nat)
    ensures c in Exec(steps).callers ==>
              var a := Exec(steps).callers[c];
              (a.phase.Leaving? || a.phase.Finished?) && a.phase.got.Some? ==>
                a.phase.got.value.Failure? || a.phase.got.value.id == a.id
  {
    InvAlways(steps);
    hide Exec;
    if c in Exec(steps).callers { assert CallerOk(Exec(steps), Exec(steps).callers[c]); }
  }

  // ---------------------------------------------------------------- who can be stranded

  /** The caller waits on a closed stream for a channel that is empty and that no thread can reach any more. */
  predicate Stranded(s: Stream, c: nat) {
    && s.closed && s.pending == map[] && c in s.callers && s.callers[c].phase.Waiting?
    && var ch := s.callers[c].phase.ch;
       && ch < |s.chans| && s.chans[ch].taken >= |s.chans[ch].put| && ch !in s.failing
       && !(s.dispatching.Some? && s.dispatching.value.0 == ch)
  }

  /** A stranded caller stays stranded until its own context ends. */
  lemma {:induction false} StrandedStays(s: Stream, c: nat, steps: seq<Step>)
    requires Inv(s) && Stranded(s, c) && GiveUp(c) !in steps
    ensures Stranded(After(s, steps), c)
  {
    if steps != [] {
      StrandedStays(s, c, steps[..|steps| - 1]);
      InvAfter(s, steps[..|steps| - 1]);
      StrandedStep(After(s, steps[..|steps| - 1]), c, steps[|steps| - 1]);
    }
  }

  function After(s: Stream, steps: seq<Step>): Stream {
    if steps == [] then s else Do(After(s, steps[..|steps| - 1]), steps[|steps| - 1])
  }

  lemma {:induction false} InvAfter(s: Stream, steps: seq<Step>)
    requires Inv(s)
    ensures Inv(After(s, steps))
  {
    if steps != [] {
      InvAfter(s, steps[..|steps| - 1]);
      hide Inv, Do;
      InvDo(After(s, steps[..|steps| - 1]), steps[|steps| - 1]);
    }
  }

  lemma StrandedStep(s: Stream, c: nat, step: Step)
    requires Inv(s) && Stranded(s, c) && step != GiveUp(c)
    ensures Stranded(Do(s, step), c)
  {
  }

  /** Exactly those waiters of a closed stream are stranded whose channel a deferred unregister took away. */
  lemma StrandedIsAbandoned(steps: seq<Step>, c: nat)
    ensures WaitsAtClosed(Exec(steps), c) ==>
              (Stranded(Exec(steps), c) <==> Exec(steps).callers[c].phase.ch in Exec(steps).abandoned)
  {
    InvAlways(steps);
    hide Exec;
    var s := Exec(steps);
    if WaitsAtClosed(s, c) { assert CallerOk(s, s.callers[c]) && ChanOk(s, s.callers[c].phase.ch); }
  }

  /** A waiter on a closed stream. */
  predicate WaitsAtClosed(s: Stream, c: nat) {
    s.closed && c in s.callers && s.callers[c].phase.Waiting?
  }

  /** Its channel holds a result, or a thread that is about to send one holds its channel. */
  predicate WillBeWoken(s: Stream, c: nat)
    requires WaitsAtClosed(s, c)
  {
    var ch := s.callers[c].phase.ch;
    && ch < |s.chans|
    && (s.chans[ch].taken < |s.chans[ch].put| || ch in s.failing
        || (s.dispatching.Some? && s.dispatching.value.0 == ch))
  }

  /** Between its registration and its unregister. */
  predicate Underway(p: Phase) {
    p.Writing? || p.Waiting? || p.Leaving?
  }

  /** No two calls under way have the same id. */
  predicate Apart(s: Stream) {
    forall c, d :: c in s.callers && d in s.callers && c != d ==>
      Underway(s.callers[c].phase) && Underway(s.callers[d].phase) ==> s.callers[c].id != s.callers[d].id
  }

  /** Calls with the same id, such as the attempts of one call, come one after the other. */
  predicate AlwaysApart(steps: seq<Step>) {
    forall n :: 0 <= n <= |steps| ==> Apart(Exec(steps[..n]))
  }

  /** The calls of a run have pairwise different ids. */
  predicate DistinctIds(s: Stream) {
    forall c, d :: c in s.callers && d in s.callers && c != d ==> s.callers[c].id != s.callers[d].id
  }

  /** Nobody who writes or waits has lost its channel to another caller's unregister. */
  predicate NoneLost(s: Stream) {
    forall c :: c in s.callers && (s.callers[c].phase.Writing? || s.callers[c].phase.Waiting?) ==>
      s.callers[c].phase.ch !in s.abandoned
  }

  lemma CallersKeepTheirIds(s: Stream, step: Step)
    ensures forall c :: c in s.callers ==> c in Do(s, step).callers && Do(s, step).callers[c].id == s.callers[c].id
  {
  }

  lemma UnregisterLosesOnlyItsOwn(s: Stream, c: nat)
    requires Inv(s) && Apart(s) && NoneLost(s)
    ensures NoneLost(Do(s, Unregister(c)))
  {
    var s' := Do(s, Unregister(c));
    forall d | d in s'.callers && (s'.callers[d].phase.Writing? || s'.callers[d].phase.Waiting?)
      ensures s'.callers[d].phase.ch !in s'.abandoned
    {
      assert s'.callers[d] == s.callers[d] && CallerOk(s, s.callers[d]);
    }
  }

  lemma OthersLoseNothing(s: Stream, step: Step)
    requires Inv(s) && NoneLost(s) && !step.Unregister?
    ensures NoneLost(Do(s, step))
  {
    hide ChanOk, CallerOk, OwnChannels;
  }

  lemma {:induction false} NoneLostAlways(steps: seq<Step>)
    requires AlwaysApart(steps)
    ensures NoneLost(Exec(steps))
  {
    if steps != [] {
      var front, last := steps[..|steps| - 1], steps[|steps| - 1];
      hide Inv, Do, NoneLost, Apart;
      ApartBefore(steps);
      NoneLostAlways(front);
      InvAlways(front);
      if last.Unregister? {
        UnregisterLosesOnlyItsOwn(Exec(front), last.c);
      } else {
        OthersLoseNothing(Exec(front), last);
      }
    } else {
      assert NoneLost(INITIAL);
    }
  }

  lemma ApartBefore(steps: seq<Step>)
    requires AlwaysApart(steps) && steps != []
    ensures AlwaysApart(steps[..|steps| - 1]) && Apart(Exec(steps[..|steps| - 1]))
  {
    hide Exec, Apart;
    var front := steps[..|steps| - 1];
    forall n | 0 <= n <= |front| ensures Apart(Exec(front[..n])) { assert front[..n] == steps[..n]; }
  }

  /** Calls with different ids are always apart. */
  lemma {:induction false} DistinctIsApart(steps: seq<Step>)
    requires DistinctIds(Exec(steps))
    ensures AlwaysApart(steps)
  {
    if steps != [] {
      var front, last := steps[..|steps| - 1], steps[|steps| - 1];
      CallersKeepTheirIds(Exec(front), last);
      assert Exec(steps) == Do(Exec(front), last);
      hide Do, Exec;
      DistinctIsApart(front);
      forall n | 0 <= n <= |steps| ensures Apart(Exec(steps[..n])) {
        if n < |steps| { assert steps[..n] == front[..n]; } else { assert steps[..n] == steps; }
      }
    } else {
      assert forall n :: 0 <= n <= |steps| ==> steps[..n] == [];
    }
  }

  /**
   When calls under way differ in their ids, a closed stream strands nobody: whoever still waits
   has a result in its channel, or the closing thread or the read loop is holding that channel
   and about to send.
   */
  lemma NobodyIsStranded(steps: seq<Step>, c: nat)
    requires AlwaysApart(steps)
    ensures !Stranded(Exec(steps), c)
    ensures WaitsAtClosed(Exec(steps), c) ==> WillBeWoken(Exec(steps), c)
  {
    NoneLostAlways(steps);
    StrandedIsAbandoned(steps, c);
    InvAlways(steps);
    hide Exec;
    if WaitsAtClosed(Exec(steps), c) { assert CallerOk(Exec(steps), Exec(steps).callers[c]); }
  }

  // ---------------------------------------------------------------- a repeated id

  /** The run of a repeated id: c's deferred unregister removes d's registration. */
  function RepeatedId(c: nat, d: nat, v: nat): seq<Step> {
    [Begin(c, v), Begin(d, v), Register(c), Written(c), Arrive(v, ""), Register(d), Written(d),
     Deliver, Receive(c), Unregister(c), FailAll]
  }

  function BothReady(c: nat, d: nat, v: nat): Stream {
    INITIAL.(callers := map[c := Caller(v, Ready), d := Caller(v, Ready)])
  }

  function AfterArrival(c: nat, d: nat, v: nat): Stream {
    Stream(0, map[c := Caller(v, Waiting(0)), d := Caller(v, Ready)], [Chan(v, [], 0)], map[],
           false, Some((0, Reply(v, ""))), {}, {}, 0)
  }

  function BothWaiting(c: nat, d: nat, v: nat): Stream {
    Stream(0, map[c := Caller(v, Waiting(0)), d := Caller(v, Waiting(1))],
           [Chan(v, [Reply(v, "")], 0), Chan(v, [], 0)], map[v := 1], false, None, {}, {}, 0)
  }

  lemma RunOn(steps: seq<Step>, n: nat)
    requires n < |steps|
    ensures Exec(steps[..n + 1]) == Do(Exec(steps[..n]), steps[n])
  {
    assert steps[..n + 1][..n] == steps[..n];
  }

  lemma FirstLeg(c: nat, d: nat, v: nat)
    requires c != d && v != 0
    ensures Do(Do(Do(Do(Do(INITIAL, Begin(c, v)), Begin(d, v)), Register(c)), Written(c)), Arrive(v, ""))
         == AfterArrival(c, d, v)
  {
    var s2 := Do(Do(INITIAL, Begin(c, v)), Begin(d, v));
    assert s2 == BothReady(c, d, v);
    var s4 := Do(Do(s2, Register(c)), Written(c));
    assert s4.callers == map[c := Caller(v, Waiting(0)), d := Caller(v, Ready)];
    assert s4.pending == map[v := 0] && s4.chans == [Chan(v, [], 0)];
    assert s4.pending - {v} == map[];
  }

  lemma SecondLeg(c: nat, d: nat, v: nat)
    requires c != d
    ensures Do(Do(Do(AfterArrival(c, d, v), Register(d)), Written(d)), Deliver) == BothWaiting(c, d, v)
  {
    var s := Do(Do(AfterArrival(c, d, v), Register(d)), Written(d));
    assert s.callers == map[c := Caller(v, Waiting(0)), d := Caller(v, Waiting(1))];
    assert s.pending == map[v := 1] && s.chans == [Chan(v, [], 0), Chan(v, [], 0)];
    var none: seq<Result> := [];
    assert none + [Reply(v, "")] == [Reply(v, "")];
    assert Do(s, Deliver).chans == BothWaiting(c, d, v).chans;
  }

  lemma LastLeg(c: nat, d: nat, v: nat)
    requires c != d
    ensures var s := Do(Do(Do(BothWaiting(c, d, v), Receive(c)), Unregister(c)), FailAll);
            Stranded(s, d) && s.callers.Keys == {c, d} && s.callers[c].id == v && s.callers[d].id == v
  {
    var s := Do(BothWaiting(c, d, v), Receive(c));
    assert s.callers[c] == Caller(v, Leaving(0, Some(Reply(v, "")))) && s.callers[d] == Caller(v, Waiting(1));
    assert s.chans == [Chan(v, [Reply(v, "")], 1), Chan(v, [], 0)];
    assert Do(s, Unregister(c)).pending == map[];
  }

  /** Any two calls given the same id have a run that leaves the second a waiter nothing will wake. */
  lemma RepeatedIdStrandsAWaiter(c: nat, d: nat, v: nat)
    requires c != d && v != 0
    ensures var s := Exec(RepeatedId(c, d, v));
            Stranded(s, d) && s.callers.Keys == {c, d} && s.callers[c].id == v && s.callers[d].id == v
  {
    hide Exec, Do, Stranded;
    var r := RepeatedId(c, d, v);
    assert r[..0] == [] && r[..11] == r;
    EmptyRun();
    RunOn(r, 0); RunOn(r, 1); RunOn(r, 2); RunOn(r, 3); RunOn(r, 4);
    FirstLeg(c, d, v);
    RunOn(r, 5); RunOn(r, 6); RunOn(r, 7);
    SecondLeg(c, d, v);
    RunOn(r, 8); RunOn(r, 9); RunOn(r, 10);
    LastLeg(c, d, v);
  }

  lemma EmptyRun()
    ensures Exec([]) == INITIAL
  {
  }

  // ---------------------------------------------------------------- exactly when nobody is stranded

  /** The calls of a run have the ids that the assignment gives them. */
  predicate Follows(steps: seq<Step>, ids: map<nat, nat>) {
    forall c :: c in Exec(steps).callers ==> c in ids && Exec(steps).callers[c].id == ids[c]
  }

  /**
   For every assignment of ids to calls, no interleaving strands a caller if and only if the ids
   are pairwise different.
   */
  lemma NobodyIsStrandedExactly(ids: map<nat, nat>)
    requires forall c :: c in ids ==> ids[c] != 0
    ensures (forall steps, c :: Follows(steps, ids) ==> !Stranded(Exec(steps), c))
       <==> (forall c, d :: c in ids && d in ids && c != d ==> ids[c] != ids[d])
  {
    hide Exec, Stranded;
    if c, d :| c in ids && d in ids && c != d && ids[c] == ids[d] {
      RepeatedIdStrandsAWaiter(c, d, ids[c]);
      assert Follows(RepeatedId(c, d, ids[c]), ids);
    } else {
      forall steps, c | Follows(steps, ids) ensures !Stranded(Exec(steps), c) {
        DistinctIsApart(steps);
        NobodyIsStranded(steps, c);
      }
    }
  }

  /** All ids of the run come from the client's counter. */
  predicate FromCounter(steps: seq<Step>) {
    forall i :: 0 <= i < |steps| ==> (steps[i].Begin? ==> steps[i].given == 0)
  }

  /** No id above the counter, and none twice. */
  predicate Counted(s: Stream) {
    DistinctIds(s) && forall c :: c in s.callers ==> s.callers[c].id <= s.reqID
  }

  lemma OnlyBeginAddsCallers(s: Stream, step: Step)
    requires !step.Begin?
    ensures Do(s, step).callers.Keys == s.callers.Keys && Do(s, step).reqID >= s.reqID
  {
  }

  lemma CountedStep(s: Stream, step: Step)
    requires Counted(s) && (step.Begin? ==> step.given == 0)
    ensures Counted(Do(s, step))
  {
    if !step.Begin? {
      hide Do;
      OnlyBeginAddsCallers(s, step);
      CallersKeepTheirIds(s, step);
    }
  }

  /** The counter never gives an id twice. */
  lemma {:induction false} CounterIdsDiffer(steps: seq<Step>)
    requires FromCounter(steps)
    ensures Counted(Exec(steps))
  {
    if steps != [] {
      CounterIdsDiffer(steps[..|steps| - 1]);
      hide Do, Counted;
      CountedStep(Exec(steps[..|steps| - 1]), steps[|steps| - 1]);
    }
  }

  /** With ids from the counter nobody is ever stranded. */
  lemma CounterStrandsNobody(steps: seq<Step>, c: nat)
    requires FromCounter(steps)
    ensures !Stranded(Exec(steps), c)
  {
    CounterIdsDiffer(steps);
    hide Exec;
    DistinctIsApart(steps);
    NobodyIsStranded(steps, c);
  }
}
