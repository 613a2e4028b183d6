/** Backend addresses with weights, as kept by micro/net/endpoint.go. */
module Endpoints {

  datatype Endpoint = Endpoint(addr: string, weight: int)

  /** The weight the balancer sees: anything not positive counts as 1. */
  function WeightOf(ep: Endpoint): (w: int)
    ensures w >= 1
    ensures ep.weight >= 1 ==> w == ep.weight
    ensures ep.weight <= 0 ==> w == 1
  {
    if ep.weight <= 0 then 1 else ep.weight
  }

  predicate HasAddr(eps: seq<Endpoint>, addr: string) {
    exists i :: 0 <= i < |eps| && eps[i].addr == addr
  }

  ghost predicate UniqueAddrs(eps: seq<Endpoint>) {
    forall i, j :: 0 <= i < j < |eps| ==> eps[i].addr != eps[j].addr
  }

  /** The largest effective weight that `eps` gives to `addr`; 0 when it does not mention it. */
  function Heaviest(eps: seq<Endpoint>, addr: string): (w: int)
    ensures w >= 0
  {
    if eps == [] then 0
    else
      var rest := Heaviest(eps[..|eps| - 1], addr);
      var last := eps[|eps| - 1];
      if last.addr == addr && WeightOf(last) > rest then WeightOf(last) else rest
  }

  /** `Heaviest` is an upper bound that some mention of the address attains. */
  lemma {:induction false} HeaviestIsMax(eps: seq<Endpoint>, addr: string)
    ensures forall j :: 0 <= j < |eps| && eps[j].addr == addr ==> WeightOf(eps[j]) <= Heaviest(eps, addr)
    ensures HasAddr(eps, addr) ==>
              exists j :: 0 <= j < |eps| && eps[j].addr == addr && WeightOf(eps[j]) == Heaviest(eps, addr)
    ensures !HasAddr(eps, addr) ==> Heaviest(eps, addr) == 0
  {
    hide HasAddr, WeightOf;
    if eps == [] {
      HasAddrNone(addr);
    } else {
      var front, last := eps[..|eps| - 1], eps[|eps| - 1];
      HeaviestIsMax(front, addr);
      HasAddrSnoc(eps, addr);
      if HasAddr(front, addr) {
        var j :| 0 <= j < |front| && front[j].addr == addr && WeightOf(front[j]) == Heaviest(front, addr);
        assert eps[j] == front[j];
      }
      assert eps[|eps| - 1] == last;
    }
  }

  lemma HasAddrNone(addr: string)
    ensures !HasAddr([], addr)
  {
  }

  lemma HasAddrSnoc(eps: seq<Endpoint>, addr: string)
    requires eps != []
    ensures HasAddr(eps, addr) <==> HasAddr(eps[..|eps| - 1], addr) || eps[|eps| - 1].addr == addr
  {
    var front := eps[..|eps| - 1];
    if HasAddr(front, addr) {
      var i :| 0 <= i < |front| && front[i].addr == addr;
      assert eps[i].addr == addr;
    }
  }

  /** Folding one more endpoint into the entries kept so far. */
  function Merge(out: seq<Endpoint>, ep: Endpoint): seq<Endpoint> {
    if HasAddr(out, ep.addr) then
      seq(|out|, i requires 0 <= i < |out| =>
        if out[i].addr == ep.addr && WeightOf(ep) > out[i].weight then out[i].(weight := WeightOf(ep)) else out[i])
    else
      out + [ep.(weight := WeightOf(ep))]
  }

  /** One entry per address, in order of first appearance. */
  function Deduped(input: seq<Endpoint>): seq<Endpoint> {
    if input == [] then [] else Merge(Deduped(input[..|input| - 1]), input[|input| - 1])
  }

  /** The deduplicated list names each address of the input once, with its heaviest weight. */
  lemma {:induction false} DedupedMeaning(input: seq<Endpoint>)
    ensures UniqueAddrs(Deduped(input))
    ensures forall i :: 0 <= i < |Deduped(input)| ==>
              Deduped(input)[i].weight == Heaviest(input, Deduped(input)[i].addr) >= 1
    ensures forall a :: HasAddr(input, a) <==> HasAddr(Deduped(input), a)
  {
    if input != [] {
      var read, ep := input[..|input| - 1], input[|input| - 1];
      DedupedMeaning(read);
      var kept, out := Deduped(read), Deduped(input);
      forall a ensures HasAddr(out, a) <==> HasAddr(kept, a) || a == ep.addr {
        if HasAddr(kept, a) {
          var i :| 0 <= i < |kept| && kept[i].addr == a;
          assert out[i].addr == a;
        } else if a == ep.addr {
          assert out[|kept|].addr == a;
        }
      }
      forall a ensures HasAddr(input, a) <==> HasAddr(read, a) || a == ep.addr { HasAddrSnoc(input, a); }
      if !HasAddr(kept, ep.addr) {
        HeaviestIsMax(read, ep.addr);
      }
    }
  }

  /** The address a is mentioned before b is. */
  ghost predicate ComesFirst(input: seq<Endpoint>, a: string, b: string) {
    exists m :: 0 <= m < |input| && input[m].addr == a && !HasAddr(input[..m + 1], b)
  }

  /** The entries are in the order in which the input first mentions their addresses. */
  lemma {:induction false} DedupedInOrder(input: seq<Endpoint>, i: nat, j: nat)
    ensures i < j < |Deduped(input)| ==> ComesFirst(input, Deduped(input)[i].addr, Deduped(input)[j].addr)
  {
    if input != [] && i < j < |Deduped(input)| {
      var read, ep := input[..|input| - 1], input[|input| - 1];
      var kept, out := Deduped(read), Deduped(input);
      assert out[i].addr == kept[i].addr && (j < |kept| ==> out[j].addr == kept[j].addr);
      if j < |kept| {
        DedupedInOrder(read, i, j);
        var m :| 0 <= m < |read| && read[m].addr == kept[i].addr && !HasAddr(read[..m + 1], kept[j].addr);
        assert input[m] == read[m] && input[..m + 1] == read[..m + 1];
      } else {
        NewComesLast(input, kept[i].addr);
      }
    }
  }

  lemma NewComesLast(input: seq<Endpoint>, a: string)
    requires input != []
    requires var read, ep := input[..|input| - 1], input[|input| - 1];
             HasAddr(Deduped(read), a) && !HasAddr(Deduped(read), ep.addr)
    ensures ComesFirst(input, a, input[|input| - 1].addr)
  {
    var read, ep := input[..|input| - 1], input[|input| - 1];
    DedupedMeaning(read);
    hide Deduped, Heaviest;
    assert HasAddr(read, a) && !HasAddr(read, ep.addr);
    var m :| 0 <= m < |read| && read[m].addr == a;
    assert input[m] == read[m] && input[..m + 1] == read[..m + 1];
    assert forall k :: 0 <= k < m + 1 ==> read[..m + 1][k] == read[k];
  }

  lemma DedupedNext(input: seq<Endpoint>, n: nat)
    requires n < |input|
    ensures Deduped(input[..n + 1]) == Merge(Deduped(input[..n]), input[n])
  {
    assert input[..n + 1][..n] == input[..n];
  }

  lemma MergeKnown(out: seq<Endpoint>, ep: Endpoint, idx: nat)
    requires UniqueAddrs(out) && idx < |out| && out[idx].addr == ep.addr
    ensures Merge(out, ep)
         == if WeightOf(ep) > out[idx].weight then out[idx := out[idx].(weight := WeightOf(ep))] else out
  {
  }

  lemma MergeNew(out: seq<Endpoint>, ep: Endpoint)
    requires forall i :: 0 <= i < |out| ==> out[i].addr != ep.addr
    ensures Merge(out, ep) == out + [ep.(weight := WeightOf(ep))]
  {
  }

  lemma NothingDeduped()
    ensures Deduped([]) == []
  {
  }

  method DedupeEndpoints(input: seq<Endpoint>) returns (out: seq<Endpoint>)
    ensures out == Deduped(input)
    ensures UniqueAddrs(out)
  {
    hide Heaviest, Merge, HasAddr, Deduped;
    NothingDeduped();
    assert input[..0] == [];
    var seen: map<string, nat> := map[];
    out := [];
    for n := 0 to |input|
      invariant out == Deduped(input[..n])
      invariant UniqueAddrs(out)
      invariant forall a :: a in seen ==> seen[a] < |out| && out[seen[a]].addr == a
      invariant forall i :: 0 <= i < |out| ==> out[i].addr in seen
    {
      var ep := input[n].(weight := WeightOf(input[n]));
      DedupedNext(input, n);
      if ep.addr in seen {
        var idx := seen[ep.addr];
        MergeKnown(out, input[n], idx);
        if ep.weight > out[idx].weight {
          out := out[idx := out[idx].(weight := ep.weight)];
        }
      } else {
        MergeNew(out, input[n]);
        seen := seen[ep.addr := |out|];
        out := out + [ep];
      }
    }
    assert input[..|input|] == input;
  }
}
