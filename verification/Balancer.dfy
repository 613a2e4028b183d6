/**
 Smooth weighted round robin (micro/net/balancer.go): the arithmetic of one pick,
 the fairness of a run of picks, and the pick as the source performs it on a
 balancer object.
 */
module Balancer {
  import opened Common
  import opened Endpoints

  datatype WrrState = WrrState(addrs: seq<string>, weights: seq<int>, current: seq<int>, total: int)

  function Sum(s: seq<int>): int {
    if s == [] then 0 else Sum(s[..|s| - 1]) + s[|s| - 1]
  }

  /** The index the selection loop ends with: the first largest element. */
  function FirstMax(s: seq<int>): (k: nat)
    requires s != []
    ensures k < |s|
    ensures forall i :: 0 <= i < |s| ==> s[i] <= s[k]
    ensures forall i :: 0 <= i < k ==> s[i] < s[k]
  {
    if |s| == 1 then 0
    else
      var k := FirstMax(s[..|s| - 1]);
      if s[|s| - 1] > s[k] then |s| - 1 else k
  }

  /** Arrays of one length, positive weights and their sum. */
  ghost predicate WellFormed(st: WrrState) {
    && |st.addrs| == |st.weights| == |st.current| > 0
    && (forall i :: 0 <= i < |st.weights| ==> st.weights[i] >= 1)
    && st.total == Sum(st.weights)
  }

  /** What every pick keeps: credits sum to zero and nobody is a full round in debt. */
  ghost predicate Balanced(st: WrrState) {
    && WellFormed(st)
    && Sum(st.current) == 0
    && (forall i :: 0 <= i < |st.current| ==> st.current[i] > -st.total)
  }

  function Zeros(n: nat): seq<int> {
    seq(n, _ => 0)
  }

  ghost predicate Fresh(st: WrrState) {
    WellFormed(st) && st.current == Zeros(|st.weights|)
  }

  /** The credits after every endpoint has been given its weight. */
  function Bumped(st: WrrState): (s: seq<int>)
    requires |st.weights| == |st.current|
  {
    seq(|st.current|, i requires 0 <= i < |st.current| => st.current[i] + st.weights[i])
  }

  function Choice(st: WrrState): (k: nat)
    requires |st.weights| == |st.current| > 0
    ensures k < |st.current|
  {
    FirstMax(Bumped(st))
  }

  function Advance(st: WrrState): WrrState
    requires |st.weights| == |st.current| > 0
  {
    var s := Bumped(st);
    var k := Choice(st);
    st.(current := s[k := s[k] - st.total])
  }

  // ---------------------------------------------------------------- sums

  lemma {:induction false} SumOfPair(a: seq<int>, b: seq<int>, c: seq<int>)
    requires |a| == |b| == |c|
    requires forall i :: 0 <= i < |a| ==> c[i] == a[i] + b[i]
    ensures Sum(c) == Sum(a) + Sum(b)
  {
    if a != [] {
      SumOfPair(a[..|a| - 1], b[..|b| - 1], c[..|c| - 1]);
    }
  }

  lemma {:induction false} SumUpdated(s: seq<int>, k: nat, v: int)
    requires k < |s|
    ensures Sum(s[k := v]) == Sum(s) - s[k] + v
  {
    var n := |s| - 1;
    if k < n {
      SumUpdated(s[..n], k, v);
      assert s[k := v][..n] == s[..n][k := v];
    } else {
      assert s[k := v][..n] == s[..n];
    }
  }

  lemma {:induction false} SumAtMost(s: seq<int>, hi: int)
    requires forall i :: 0 <= i < |s| ==> s[i] <= hi
    ensures Sum(s) <= |s| * hi
  {
    if s != [] {
      SumAtMost(s[..|s| - 1], hi);
      assert |s| * hi == (|s| - 1) * hi + hi;
    }
  }

  lemma {:induction false} SumAbove(s: seq<int>, k: nat, lo: int)
    requires k < |s|
    requires forall i :: 0 <= i < |s| ==> s[i] > lo
    ensures Sum(s) >= s[k] + (|s| - 1) * (lo + 1)
  {
    var n := |s| - 1;
    var front := s[..n];
    if k < n {
      SumAbove(front, k, lo);
      assert n * (lo + 1) == (n - 1) * (lo + 1) + (lo + 1);
    } else if n > 0 {
      SumAbove(front, 0, lo);
      assert n * (lo + 1) == (n - 1) * (lo + 1) + (lo + 1);
    }
  }

  lemma {:induction false} SumOfPositive(s: seq<int>)
    requires s != []
    requires forall i :: 0 <= i < |s| ==> s[i] >= 1
    ensures Sum(s) >= |s|
  {
    if |s| > 1 { SumOfPositive(s[..|s| - 1]); }
  }

  lemma {:induction false} NonNegativeSumZero(s: seq<int>)
    requires forall i :: 0 <= i < |s| ==> s[i] >= 0
    ensures Sum(s) >= 0
    ensures Sum(s) == 0 ==> s == Zeros(|s|)
  {
    if s != [] {
      NonNegativeSumZero(s[..|s| - 1]);
      assert s == s[..|s| - 1] + [s[|s| - 1]];
    }
  }

  lemma {:induction false} SumOfZeros(n: nat)
    ensures Sum(Zeros(n)) == 0
  {
    if n > 0 {
      SumOfZeros(n - 1);
      assert Zeros(n)[..n - 1] == Zeros(n - 1);
    }
  }

  // ---------------------------------------------------------------- one pick

  lemma FreshIsBalanced(st: WrrState)
    requires Fresh(st)
    ensures Balanced(st) && st.total >= |st.weights|
  {
    SumOfZeros(|st.weights|);
    SumOfPositive(st.weights);
  }

  /** The bumped credits add up to the total, so the winner is strictly positive. */
  lemma WinnerIsPositive(st: WrrState)
    requires Balanced(st)
    ensures Sum(Bumped(st)) == st.total > 0
    ensures Bumped(st)[Choice(st)] >= 1
  {
    SumOfPair(st.current, st.weights, Bumped(st));
    SumOfPositive(st.weights);
    if Bumped(st)[Choice(st)] <= 0 {
      SumAtMost(Bumped(st), 0);
      assert false;
    }
  }

  /** Every pick keeps the balance. */
  lemma AdvanceKeepsBalance(st: WrrState)
    requires Balanced(st)
    ensures Balanced(Advance(st))
  {
    WinnerIsPositive(st);
    var s, k := Bumped(st), Choice(st);
    SumUpdated(s, k, s[k] - st.total);
  }

  /** Every value the pick computes lies strictly between -total and n*total: machine integers suffice. */
  lemma CreditsAreBounded(st: WrrState, i: nat)
    requires Balanced(st) && i < |st.current|
    ensures -st.total < st.current[i] <= Bumped(st)[i] - 1
    ensures Bumped(st)[i] <= |st.current| * st.total
  {
    SumAbove(st.current, i, -st.total);
    WeightWithinTotal(st.weights, i);
    Products(|st.current|, st.total);
  }

  lemma Products(n: nat, total: int)
    ensures (n - 1) * (-total + 1) == -(n * total) + total + n - 1
  {
  }

  lemma {:induction false} WeightWithinTotal(w: seq<int>, i: nat)
    requires i < |w| && (forall j :: 0 <= j < |w| ==> w[j] >= 1)
    ensures w[i] <= Sum(w)
  {
    SumAbove(w, i, 0);
  }

  // ---------------------------------------------------------------- runs of picks

  /** The state after n sequential picks. */
  ghost function After(st: WrrState, n: nat): (r: WrrState)
    requires |st.weights| == |st.current| > 0
    ensures r.addrs == st.addrs && r.weights == st.weights && r.total == st.total && |r.current| == |st.current|
  {
    if n == 0 then st else Advance(After(st, n - 1))
  }

  /** The indices chosen by n sequential picks. */
  ghost function Picks(st: WrrState, n: nat): (r: seq<nat>)
    requires |st.weights| == |st.current| > 0
    ensures |r| == n
    ensures forall j :: 0 <= j < n ==> r[j] < |st.weights|
  {
    if n == 0 then [] else Picks(st, n - 1) + [Choice(After(st, n - 1))]
  }

  function Count(picks: seq<nat>, i: nat): nat {
    if picks == [] then 0 else Count(picks[..|picks| - 1], i) + (if picks[|picks| - 1] == i then 1 else 0)
  }

  lemma {:induction false} CountConcat(a: seq<nat>, b: seq<nat>, i: nat)
    ensures Count(a + b, i) == Count(a, i) + Count(b, i)
  {
    if b == [] {
      assert a + b == a;
    } else {
      assert (a + b)[..|a + b| - 1] == a + b[..|b| - 1];
      CountConcat(a, b[..|b| - 1], i);
    }
  }

  lemma {:induction false} PicksPrefix(st: WrrState, m: nat, n: nat)
    requires |st.weights| == |st.current| > 0 && m <= n
    ensures Picks(st, n)[..m] == Picks(st, m)
  {
    if m < n {
      PicksPrefix(st, m, n - 1);
      assert Picks(st, n)[..m] == Picks(st, n - 1)[..m];
    } else {
      assert Picks(st, n)[..m] == Picks(st, n);
    }
  }

  lemma {:induction false} AfterBalanced(st: WrrState, n: nat)
    requires Balanced(st)
    ensures Balanced(After(st, n))
  {
    if n > 0 {
      AfterBalanced(st, n - 1);
      AdvanceKeepsBalance(After(st, n - 1));
    }
  }

  lemma {:induction false} AfterAdds(st: WrrState, m: nat, n: nat)
    requires |st.weights| == |st.current| > 0
    ensures After(st, m + n) == After(After(st, m), n)
  {
    hide Advance;
    if n > 0 { AfterAdds(st, m, n - 1); }
  }

  /** One pick gives each endpoint its weight and charges the chosen one a full round. */
  lemma CreditAfterPick(st: WrrState, i: nat)
    requires |st.weights| == |st.current| > 0 && i < |st.current|
    ensures Advance(st).current[i] == st.current[i] + st.weights[i] - (if Choice(st) == i then st.total else 0)
  {
  }

  /** What an endpoint of weight w holds after n picks of which c chose it, t being a full round. */
  function Credit(n: int, w: int, t: int, c: int): int {
    n * w - t * c
  }

  lemma CreditStep(n: int, w: int, t: int, c: int)
    ensures Credit(0, w, t, 0) == 0
    ensures Credit(n + 1, w, t, c) == Credit(n, w, t, c) + w
    ensures Credit(n, w, t, c + 1) == Credit(n, w, t, c) - t
  {
  }

  /** The credit of an endpoint is what it earned minus a full round for each time it was chosen. */
  lemma {:induction false} Ledger(st: WrrState, n: nat, i: nat)
    requires Fresh(st) && i < |st.weights|
    ensures After(st, n).current[i] == Credit(n, st.weights[i], st.total, Count(Picks(st, n), i))
  {
    hide Advance, Choice, Sum, Credit;
    var w, t := st.weights[i], st.total;
    if n == 0 {
      CreditStep(0, w, t, 0);
    } else {
      Ledger(st, n - 1, i);
      CreditAfterPick(After(st, n - 1), i);
      var c := Count(Picks(st, n - 1), i);
      assert Picks(st, n)[..n - 1] == Picks(st, n - 1);
      CreditStep(n - 1, w, t, c);
      CreditStep(n, w, t, c);
    }
  }

  /** At every prefix of n picks no endpoint is more than one pick ahead of its share. */
  lemma PrefixShare(st: WrrState, n: nat, i: nat)
    requires Fresh(st) && i < |st.weights|
    ensures st.total * Count(Picks(st, n), i) < n * st.weights[i] + st.total
  {
    FreshIsBalanced(st);
    AfterBalanced(st, n);
    Ledger(st, n, i);
  }

  /** After a whole round no endpoint is in debt. */
  lemma NoDebtAfterRound(st: WrrState, i: nat)
    requires Fresh(st) && i < |st.weights|
    ensures st.total > 0 && After(st, st.total).current[i] >= 0
  {
    hide Sum, After, Picks, Count;
    var t := st.total;
    FreshIsBalanced(st);
    AfterBalanced(st, t);
    Ledger(st, t, i);
    RoundLeavesNoDebt(t, st.weights[i], Count(Picks(st, t), i));
  }

  lemma RoundLeavesNoDebt(t: int, w: int, c: int)
    requires t > 0 && t * w - t * c > -t
    ensures t * w - t * c >= 0
  {
    assert Credit(t, w, t, c) == t * w - t * c;
    hide Credit;
    RoundIsMultiple(t, w, c);
  }

  /** After a whole round the credit is a multiple of the total. */
  lemma {:induction false} RoundIsMultiple(t: int, w: int, c: int)
    requires t > 0
    ensures w >= c ==> Credit(t, w, t, c) >= 0
    ensures w < c ==> Credit(t, w, t, c) <= -t
    decreases if w < c then c - w else w - c
  {
    if w == c {
      assert Credit(t, w, t, w) == 0;
    } else if w < c {
      hide Credit;
      RoundIsMultiple(t, w, c - 1);
      CreditStep(t, w, t, c - 1);
    } else {
      hide Credit;
      RoundIsMultiple(t, w, c + 1);
      CreditStep(t, w, t, c);
    }
  }

  /** A whole round brings every credit back to zero. */
  lemma RoundReturnsToStart(st: WrrState)
    requires Fresh(st)
    ensures st.total > 0 && After(st, st.total) == st
  {
    hide Sum, After;
    FreshIsBalanced(st);
    AfterBalanced(st, st.total);
    var end := After(st, st.total);
    forall i | 0 <= i < |end.current| ensures end.current[i] >= 0 {
      NoDebtAfterRound(st, i);
    }
    NonNegativeSumZero(end.current);
  }

  /** Exact fairness: any `total` consecutive picks choose endpoint i exactly weight_i times. */
  lemma EveryWindowIsFair(st: WrrState, m: nat, i: nat)
    requires Fresh(st) && i < |st.weights|
    ensures st.total > 0
    ensures Count(Picks(st, m + st.total)[m..], i) == st.weights[i]
  {
    hide Sum, After, Picks, Count;
    var t, w := st.total, st.weights[i];
    RoundReturnsToStart(st);
    AfterAdds(st, t, m);
    Ledger(st, m, i);
    Ledger(st, m + t, i);
    PicksPrefix(st, m, m + t);
    var all := Picks(st, m + t);
    CountConcat(all[..m], all[m..], i);
    assert all == all[..m] + all[m..];
    SameCreditMeansShare(t, m, w, Count(all[..m], i), Count(all[m..], i));
  }

  lemma SameCreditMeansShare(t: int, m: int, w: int, c: int, d: int)
    requires t > 0
    requires (m + t) * w - t * (c + d) == m * w - t * c
    ensures d == w
  {
    assert (m + t) * w == m * w + t * w;
    assert t * (c + d) == t * c + t * d;
    assert t * d == t * w;
  }

  // ---------------------------------------------------------------- the balancer object

  predicate Matches(st: WrrState, candidates: seq<Endpoint>)
    requires |st.addrs| == |st.weights|
  {
    && |st.addrs| == |candidates|
    && forall i :: 0 <= i < |candidates| ==>
        st.addrs[i] == candidates[i].addr && st.weights[i] == WeightOf(candidates[i])
  }

  function WeightsOf(candidates: seq<Endpoint>): seq<int> {
    seq(|candidates|, i requires 0 <= i < |candidates| => WeightOf(candidates[i]))
  }

  /** The state built for a candidate list: zero credit everywhere. */
  function Start(candidates: seq<Endpoint>): (st: WrrState)
    ensures candidates != [] ==> Fresh(st) && Matches(st, candidates)
  {
    WrrState(AddrsOf(candidates), WeightsOf(candidates), Zeros(|candidates|), Sum(WeightsOf(candidates)))
  }

  function AddrsOf(candidates: seq<Endpoint>): seq<string> {
    seq(|candidates|, i requires 0 <= i < |candidates| => candidates[i].addr)
  }

  /** The comparison loop's result: the same addresses and weights, in the same order. */
  lemma MatchesExactly(st: WrrState, candidates: seq<Endpoint>)
    requires |st.addrs| == |st.weights|
    ensures Matches(st, candidates) <==> st.addrs == AddrsOf(candidates) && st.weights == WeightsOf(candidates)
  {
  }

  method BuildState(candidates: seq<Endpoint>) returns (st: WrrState)
    ensures st == Start(candidates)
  {
    var addrs: seq<string>, weights: seq<int>, current: seq<int>, total := [], [], [], 0;
    for i := 0 to |candidates|
      invariant |addrs| == |weights| == |current| == i
      invariant forall j :: 0 <= j < i ==> addrs[j] == candidates[j].addr && current[j] == 0
      invariant weights == WeightsOf(candidates[..i])
      invariant total == Sum(weights)
    {
      var w := WeightOf(candidates[i]);
      addrs, current := addrs + [candidates[i].addr], current + [0];
      assert (weights + [w])[..i] == weights;
      weights := weights + [w];
      assert weights == WeightsOf(candidates[..i + 1]);
      total := total + w;
    }
    assert candidates[..|candidates|] == candidates;
    st := WrrState(addrs, weights, current, total);
    assert current == Zeros(|candidates|);
  }

  /** The selection loop: bumps the copied credits in place and charges the winner. */
  method BumpAndSelect(st: WrrState, next: array<int>) returns (best: nat)
    requires Balanced(st) && next.Length == |st.current| && next[..] == st.current
    modifies next
    ensures best == Choice(st) && next[..] == Advance(st).current
  {
    best := 0;
    var bestVal := -0x4000_0000;
    WinnerIsPositive(st);
    ghost var s := Bumped(st);
    var i := 0;
    while i < |st.weights|
      invariant 0 <= i <= |st.weights|
      invariant forall j :: 0 <= j < i ==> next[j] == s[j]
      invariant forall j :: i <= j < next.Length ==> next[j] == st.current[j]
      invariant best < |s|
      invariant forall j :: 0 <= j < i ==> s[j] <= bestVal
      invariant || bestVal == -0x4000_0000
                || (best < i && bestVal == s[best] && forall j :: 0 <= j < best ==> s[j] < bestVal)
    {
      next[i] := next[i] + st.weights[i];
      if next[i] > bestVal {
        bestVal := next[i];
        best := i;
      }
      i := i + 1;
    }
    assert s[Choice(st)] <= bestVal;
    next[best] := next[best] - st.total;
  }

  /** The last loop of a pick: the first candidate with the chosen address. */
  method Search(candidates: seq<Endpoint>, want: string) returns (i: nat)
    ensures i <= |candidates| && (i < |candidates| ==> candidates[i].addr == want)
    ensures forall j :: 0 <= j < i ==> candidates[j].addr != want
  {
    i := 0;
    while i < |candidates| && candidates[i].addr != want
      invariant 0 <= i <= |candidates|
      invariant forall j :: 0 <= j < i ==> candidates[j].addr != want
    {
      i := i + 1;
    }
  }

  /** From a state to its successor and the endpoint chosen. */
  method SelectNext(st: WrrState, candidates: seq<Endpoint>) returns (newSt: WrrState, ep: Endpoint)
    requires Balanced(st) && st.addrs == AddrsOf(candidates)
    ensures newSt == Advance(st) && Balanced(newSt)
    ensures ep in candidates && ep.addr == candidates[Choice(st)].addr
    ensures UniqueAddrs(candidates) ==> ep == candidates[Choice(st)]
  {
    var next := new int[|st.current|](i requires 0 <= i < |st.current| => st.current[i]);
    assert next[..] == st.current;
    AdvanceKeepsBalance(st);
    hide Balanced, Choice, Sum;
    var best := BumpAndSelect(st, next);
    newSt := WrrState(st.addrs, st.weights, next[..], st.total);
    assert candidates[best].addr == st.addrs[best];
    var i := Search(candidates, st.addrs[best]);
    ep := candidates[i];
  }

  class WeightedRoundRobin {
    var state: Option<WrrState>

    ghost predicate Valid() reads this {
      state.Some? ==> Balanced(state.value)
    }

    constructor ()
      ensures Valid() && state == None
    {
      state := None;
    }

    /** The stored state is for exactly these candidates. */
    ghost predicate For(candidates: seq<Endpoint>) reads this {
      state.Some? && state.value.addrs == AddrsOf(candidates) && state.value.weights == WeightsOf(candidates)
    }

    /**
     A pick with no other pick in between: the compare-and-swap succeeds at once. A stored state for
     exactly these candidates goes on; any other is replaced by a fresh one.
     */
    method Pick(candidates: seq<Endpoint>) returns (ep: Endpoint)
      requires Valid() && candidates != []
      modifies this
      ensures Valid()
      ensures |candidates| == 1 ==> state == old(state) && ep == candidates[0]
      ensures |candidates| > 1 && old(For(candidates)) ==>
                && state == Some(Advance(old(state).value))
                && ep in candidates && ep.addr == candidates[Choice(old(state).value)].addr
      ensures |candidates| > 1 && !old(For(candidates)) ==>
                && state == Some(Advance(Start(candidates)))
                && ep in candidates && ep.addr == candidates[Choice(Start(candidates))].addr
      ensures |candidates| > 1 && UniqueAddrs(candidates) ==>
                ep == candidates[if old(For(candidates)) then Choice(old(state).value) else Choice(Start(candidates))]
    {
      if |candidates| == 1 {
        return candidates[0];
      }
      var st;
      if state.Some? { MatchesExactly(state.value, candidates); }
      if state.Some? && Matches(state.value, candidates) {
        st := state.value;
      } else {
        st := BuildState(candidates);
        FreshIsBalanced(st);
        state := Some(st);
      }
      hide Advance, Choice, Start, WeightsOf, AddrsOf, Sum;
      var next;
      next, ep := SelectNext(st, candidates);
      state := Some(next);
    }
  }

  /** The endpoints chosen by successive picks. */
  ghost function Chosen(candidates: seq<Endpoint>, n: nat): (r: seq<Endpoint>)
    requires candidates != []
    ensures |r| == n
  {
    var picks := Picks(Start(candidates), n);
    seq(n, j requires 0 <= j < n => candidates[picks[j]])
  }

  lemma ChosenNext(candidates: seq<Endpoint>, n: nat)
    requires candidates != []
    ensures Chosen(candidates, n + 1) == Chosen(candidates, n) + [candidates[Choice(After(Start(candidates), n))]]
  {
    hide Choice, After, Start;
  }

  /** A run of picks on one list, from a new balancer: the sequential picks, one endpoint each. */
  method PickMany(candidates: seq<Endpoint>, n: nat) returns (eps: seq<Endpoint>)
    requires candidates != [] && UniqueAddrs(candidates)
    ensures eps == Chosen(candidates, n)
  {
    var b := new WeightedRoundRobin();
    eps := [];
    for i := 0 to n
      invariant b.Valid() && fresh(b) && eps == Chosen(candidates, i)
      invariant |candidates| > 1 ==> b.state == if i == 0 then None else Some(After(Start(candidates), i))
    {
      ChosenNext(candidates, i);
      var ep := b.Pick(candidates);
      eps := eps + [ep];
    }
  }

  function CountOf(eps: seq<Endpoint>, ep: Endpoint): nat {
    if eps == [] then 0 else CountOf(eps[..|eps| - 1], ep) + (if eps[|eps| - 1] == ep then 1 else 0)
  }

  lemma {:induction false} CountOfPicks(candidates: seq<Endpoint>, picks: seq<nat>, eps: seq<Endpoint>, i: nat)
    requires UniqueAddrs(candidates) && i < |candidates| && |eps| == |picks|
    requires forall j :: 0 <= j < |picks| ==> picks[j] < |candidates| && eps[j] == candidates[picks[j]]
    ensures CountOf(eps, candidates[i]) == Count(picks, i)
  {
    if picks != [] {
      CountOfPicks(candidates, picks[..|picks| - 1], eps[..|eps| - 1], i);
    }
  }

  /** So any total consecutive picks of the object return endpoint i exactly weight_i times. */
  lemma PickManyIsFair(candidates: seq<Endpoint>, m: nat, i: nat)
    requires candidates != [] && UniqueAddrs(candidates) && i < |candidates|
    ensures var total := Sum(WeightsOf(candidates));
            total > 0 && CountOf(Chosen(candidates, m + total)[m..], candidates[i]) == WeightOf(candidates[i])
  {
    var st := Start(candidates);
    assert st.weights[i] == WeightOf(candidates[i]) && st.total == Sum(WeightsOf(candidates));
    hide Sum, Picks, Count, CountOf, Start, WeightsOf;
    EveryWindowIsFair(st, m, i);
    var n := m + st.total;
    CountOfPicks(candidates, Picks(st, n)[m..], Chosen(candidates, n)[m..], i);
  }

  /** And of the first m picks fewer than m * weight_i / total + 1 return it. */
  lemma PickManyShares(candidates: seq<Endpoint>, m: nat, i: nat)
    requires candidates != [] && UniqueAddrs(candidates) && i < |candidates|
    ensures var total := Sum(WeightsOf(candidates));
            total * CountOf(Chosen(candidates, m), candidates[i]) < m * WeightOf(candidates[i]) + total
  {
    var st := Start(candidates);
    assert st.weights[i] == WeightOf(candidates[i]) && st.total == Sum(WeightsOf(candidates));
    hide Sum, Picks, Count, CountOf, Start, WeightsOf;
    PrefixShare(st, m, i);
    CountOfPicks(candidates, Picks(st, m), Chosen(candidates, m), i);
  }
}
