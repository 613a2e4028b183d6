/**
 Where the requests of the drain protocol (micro/net/server.go) come from, told by the steps of a
 run: each request that a handler is started for was read on its own connection, is the last one
 read there before it was admitted, and carries the one-way flag that was read.
 */
module ServerDrainReads {
  import opened Common
  import opened ServerDrain

  /** The k-th step reads a request frame with this flag on connection c. */
  ghost predicate Reads(n: nat, steps: seq<Step>, k: nat, c: nat, oneWay: bool) {
    && k < |steps| && steps[k] == Advance(c, oneWay, true)
    && c in Exec(n, steps[..k]).conns && Exec(n, steps[..k]).conns[c].phase.Reading?
  }

  /** And no later step of the run reads on that connection. */
  ghost predicate IsLastRead(n: nat, steps: seq<Step>, k: nat, c: nat, oneWay: bool) {
    && Reads(n, steps, k, c, oneWay)
    && forall j: nat, w :: k < j ==> !Reads(n, steps, j, c, w)
  }

  /** The m-th step starts the handler of request r. */
  ghost predicate Admits(n: nat, steps: seq<Step>, m: nat, r: nat) {
    m < |steps| && |Exec(n, steps[..m]).reqs| == r < |Exec(n, steps[..m + 1]).reqs|
  }

  /** A request frame is under way to its handler. */
  predicate Carries(p: Phase) {
    p.GotRequest? || p.GotRequest2? || p.Admitting? || p.Added?
  }

  /** What a connection carries is what it read last, after all requests admitted on it. */
  ghost predicate CarriesLastRead(n: nat, steps: seq<Step>, c: nat, w: bool) {
    exists k: nat :: IsLastRead(n, steps, k, c, w) && AfterAdmitted(n, steps, k, c)
  }

  ghost predicate AfterAdmitted(n: nat, steps: seq<Step>, k: nat, c: nat) {
    forall m: nat, r: nat :: r < |Exec(n, steps).reqs| && Exec(n, steps).reqs[r].conn == c && Admits(n, steps, m, r) ==>
      m < k
  }

  /** Request r was the last read on its connection before its admission, after all earlier ones admitted there. */
  ghost predicate WasRead(n: nat, steps: seq<Step>, r: nat, q: Request) {
    exists m: nat, k: nat ::
      && Admits(n, steps, m, r) && k < m && IsLastRead(n, steps[..m], k, q.conn, q.oneWay)
      && AfterAdmitted(n, steps[..m], k, q.conn)
  }

  ghost predicate History(n: nat, steps: seq<Step>) {
    var s := Exec(n, steps);
    && (forall c :: c in s.conns && Carries(s.conns[c].phase) ==> CarriesLastRead(n, steps, c, s.conns[c].phase.oneWay))
    && (forall r :: 0 <= r < |s.reqs| ==> WasRead(n, steps, r, s.reqs[r]))
  }

  // ---------------------------------------------------------------- longer runs

  lemma LongerRun(n: nat, steps: seq<Step>, last: Step)
    ensures Exec(n, steps + [last]) == Do(Exec(n, steps), last)
    ensures (steps + [last])[..|steps|] == steps && (steps + [last])[|steps|] == last
    ensures forall k :: 0 <= k <= |steps| ==> (steps + [last])[..k] == steps[..k]
    ensures forall k :: 0 <= k < |steps| ==> (steps + [last])[k] == steps[k]
  {
    assert (steps + [last])[..|steps|] == steps;
  }

  lemma ReadsLonger(n: nat, steps: seq<Step>, last: Step, k: nat, c: nat, w: bool)
    requires k < |steps|
    ensures Reads(n, steps + [last], k, c, w) <==> Reads(n, steps, k, c, w)
  {
    hide Exec;
    LongerRun(n, steps, last);
  }

  lemma AdmitsLonger(n: nat, steps: seq<Step>, last: Step, m: nat, r: nat)
    requires m < |steps|
    ensures Admits(n, steps + [last], m, r) <==> Admits(n, steps, m, r)
  {
    hide Exec;
    LongerRun(n, steps, last);
  }

  lemma LastReadLonger(n: nat, steps: seq<Step>, last: Step, k: nat, c: nat, w: bool)
    requires IsLastRead(n, steps, k, c, w) && forall v :: !Reads(n, steps + [last], |steps|, c, v)
    ensures IsLastRead(n, steps + [last], k, c, w)
  {
    hide Exec;
    ReadsLonger(n, steps, last, k, c, w);
    forall j: nat, v | k < j ensures !Reads(n, steps + [last], j, c, v) {
      if j < |steps| { ReadsLonger(n, steps, last, j, c, v); }
    }
  }

  // ---------------------------------------------------------------- one step

  lemma ReqsGrow(s: Server, step: Step)
    ensures |s.reqs| <= |Do(s, step).reqs| <= |s.reqs| + 1
    ensures forall r :: 0 <= r < |s.reqs| ==>
              Do(s, step).reqs[r].conn == s.reqs[r].conn && Do(s, step).reqs[r].oneWay == s.reqs[r].oneWay
  {
  }

  /** A request is new exactly when a connection that carries one passes on, and then it is that one. */
  lemma NewRequest(s: Server, step: Step)
    ensures |Do(s, step).reqs| == |s.reqs| + 1 ==>
              && step.Advance? && step.c in s.conns && s.conns[step.c].phase.Added?
              && Do(s, step).reqs[|s.reqs|].conn == step.c
              && Do(s, step).reqs[|s.reqs|].oneWay == s.conns[step.c].phase.oneWay
              && !Carries(Do(s, step).conns[step.c].phase)
  {
  }

  /** A connection carries what it carried, or what it has just read. */
  lemma CarriedBy(s: Server, step: Step, c: nat)
    requires c in Do(s, step).conns && Carries(Do(s, step).conns[c].phase)
    ensures c in s.conns
    ensures var w := Do(s, step).conns[c].phase.oneWay;
            || (s.conns[c].phase.Reading? && step == Advance(c, w, true))
            || (Carries(s.conns[c].phase) && s.conns[c].phase.oneWay == w && !s.conns[c].phase.Reading?)
    ensures |Do(s, step).reqs| == |s.reqs| + 1 ==> Do(s, step).reqs[|s.reqs|].conn != c
  {
    NewRequest(s, step);
  }

  // ---------------------------------------------------------------- all runs

  lemma AdmittedBefore(n: nat, steps: seq<Step>, m: nat, r: nat)
    requires Admits(n, steps, m, r)
    ensures m < |steps|
  {
  }

  lemma JustRead(n: nat, steps: seq<Step>, last: Step, c: nat, w: bool)
    requires c in Exec(n, steps).conns && Exec(n, steps).conns[c].phase.Reading? && last == Advance(c, w, true)
    requires |Exec(n, steps + [last]).reqs| == |Exec(n, steps).reqs|
    ensures CarriesLastRead(n, steps + [last], c, w)
  {
    LongerRun(n, steps, last);
    hide Exec;
    var k := |steps|;
    assert Reads(n, steps + [last], k, c, w);
    forall j: nat, v | k < j ensures !Reads(n, steps + [last], j, c, v) {}
    assert (steps + [last])[..k + 1] == steps + [last];
    forall m: nat, r: nat | Admits(n, steps + [last], m, r) ensures m < k {
      AdmittedBefore(n, steps + [last], m, r);
    }
    assert IsLastRead(n, steps + [last], k, c, w) && AfterAdmitted(n, steps + [last], k, c);
  }

  lemma StillCarries(n: nat, steps: seq<Step>, last: Step, c: nat, w: bool)
    requires CarriesLastRead(n, steps, c, w)
    requires c in Exec(n, steps).conns && !Exec(n, steps).conns[c].phase.Reading?
    requires |Exec(n, steps + [last]).reqs| > |Exec(n, steps).reqs| ==>
               Exec(n, steps + [last]).reqs[|Exec(n, steps).reqs|].conn != c
    ensures CarriesLastRead(n, steps + [last], c, w)
  {
    LongerRun(n, steps, last);
    ReqsGrow(Exec(n, steps), last);
    hide Exec, Do;
    var k: nat :| IsLastRead(n, steps, k, c, w) && AfterAdmitted(n, steps, k, c);
    LastReadLonger(n, steps, last, k, c, w);
    var s' := Exec(n, steps + [last]);
    assert (steps + [last])[..|steps| + 1] == steps + [last];
    forall m: nat, r: nat | r < |s'.reqs| && s'.reqs[r].conn == c && Admits(n, steps + [last], m, r) ensures m < k {
      if m < |steps| {
        AdmitsLonger(n, steps, last, m, r);
        AdmittedIsThere(n, steps, m, r);
      }
    }
  }

  /** A request that has been admitted is in the list from then on. */
  lemma AdmittedIsThere(n: nat, steps: seq<Step>, m: nat, r: nat)
    requires Admits(n, steps, m, r)
    ensures r < |Exec(n, steps).reqs|
  {
    hide Exec;
    ReqsOnlyGrow(n, steps, m + 1, |steps|);
    assert steps[..|steps|] == steps;
  }

  lemma {:induction false} ReqsOnlyGrow(n: nat, steps: seq<Step>, i: nat, j: nat)
    requires i <= j <= |steps|
    ensures |Exec(n, steps[..i]).reqs| <= |Exec(n, steps[..j]).reqs|
  {
    if i < j {
      ReqsOnlyGrow(n, steps, i, j - 1);
      assert steps[..j] == steps[..j - 1] + [steps[j - 1]];
      LongerRun(n, steps[..j - 1], steps[j - 1]);
      hide Exec, Do;
      ReqsGrow(Exec(n, steps[..j - 1]), steps[j - 1]);
    }
  }

  lemma WasReadStays(n: nat, steps: seq<Step>, last: Step, r: nat, q: Request, q': Request)
    requires WasRead(n, steps, r, q) && q'.conn == q.conn && q'.oneWay == q.oneWay
    ensures WasRead(n, steps + [last], r, q')
  {
    hide Exec, IsLastRead, AfterAdmitted;
    var m: nat, k: nat :| && Admits(n, steps, m, r) && k < m && IsLastRead(n, steps[..m], k, q.conn, q.oneWay)
                          && AfterAdmitted(n, steps[..m], k, q.conn);
    LongerRun(n, steps, last);
    AdmitsLonger(n, steps, last, m, r);
    assert (steps + [last])[..m] == steps[..m];
  }

  lemma JustAdmitted(n: nat, steps: seq<Step>, last: Step, c: nat, w: bool, q: Request)
    requires CarriesLastRead(n, steps, c, w) && q.conn == c && q.oneWay == w
    requires |Exec(n, steps).reqs| < |Exec(n, steps + [last]).reqs|
    ensures WasRead(n, steps + [last], |Exec(n, steps).reqs|, q)
  {
    hide Exec, AfterAdmitted;
    LongerRun(n, steps, last);
    var k: nat :| IsLastRead(n, steps, k, c, w) && AfterAdmitted(n, steps, k, c);
    assert (steps + [last])[..|steps| + 1] == steps + [last];
    assert Admits(n, steps + [last], |steps|, |Exec(n, steps).reqs|);
  }

  lemma HistoryStep(n: nat, steps: seq<Step>, last: Step)
    requires History(n, steps)
    ensures History(n, steps + [last])
  {
    LongerRun(n, steps, last);
    ReqsGrow(Exec(n, steps), last);
    NewRequest(Exec(n, steps), last);
    hide Exec, Do, CarriesLastRead, WasRead;
    var s, s' := Exec(n, steps), Exec(n, steps + [last]);
    forall c | c in s'.conns && Carries(s'.conns[c].phase)
      ensures CarriesLastRead(n, steps + [last], c, s'.conns[c].phase.oneWay)
    {
      CarriedBy(s, last, c);
      var w := s'.conns[c].phase.oneWay;
      if s.conns[c].phase.Reading? { JustRead(n, steps, last, c, w); } else { StillCarries(n, steps, last, c, w); }
    }
    forall r | 0 <= r < |s'.reqs| ensures WasRead(n, steps + [last], r, s'.reqs[r]) {
      if r < |s.reqs| {
        WasReadStays(n, steps, last, r, s.reqs[r], s'.reqs[r]);
      } else {
        JustAdmitted(n, steps, last, last.c, s.conns[last.c].phase.oneWay, s'.reqs[r]);
      }
    }
  }

  lemma {:induction false} HistoryAlways(n: nat, steps: seq<Step>)
    ensures History(n, steps)
  {
    if steps != [] {
      var front, last := steps[..|steps| - 1], steps[|steps| - 1];
      assert steps == front + [last];
      HistoryAlways(n, front);
      HistoryStep(n, front, last);
    }
  }

  /**
   In every run each admitted request is the one read last on its connection before its admission,
   with the flag that was read, and no two requests come from one read.
   */
  lemma RequestIsAsRead(n: nat, steps: seq<Step>, r: nat)
    ensures r < |Exec(n, steps).reqs| ==> WasRead(n, steps, r, Exec(n, steps).reqs[r])
  {
    HistoryAlways(n, steps);
  }
}
