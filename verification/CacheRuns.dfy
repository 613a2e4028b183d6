/**
 An overfull cache (cache/localCache.go) over whole runs. What a run does to the byte count is
 a function of the list alone: a Set of a present key moves its node and adds one, a Set of an
 absent key makes room and adds one or panics with an empty list, a Get moves a node, and a
 Delete leaves the list as it is.
 */
module CacheRuns {
  import opened Common
  import opened Cache

  datatype Op =
    | Reset(i: nat, x: Item)   // Set of the key whose node is the i-th
    | Add(x: Item)             // Set of an absent key
    | Touch(i: nat)            // Get of the key whose node is the i-th

  /** What making room for a pair leaves of the list; a panic leaves nothing. */
  function Kept(list: seq<Item>, capacity: nat, need: nat): seq<Item> {
    var kept := Room(list, Wrap(Sizes(list)), capacity, need);
    if kept.Some? then kept.value else []
  }

  function Next(list: seq<Item>, capacity: nat, op: Op): seq<Item> {
    match op
    case Reset(i, x) => if i < |list| then [x] + Moved(list, i) else list
    case Add(x) =>
      if Room(list, Wrap(Sizes(list)), capacity, x.size).Some? then [x] + Kept(list, capacity, x.size) else []
    case Touch(i) => if i < |list| then Moved(list, i) else list
  }

  function Exec(list: seq<Item>, capacity: nat, ops: seq<Op>): seq<Item> {
    if ops == [] then list else Next(Exec(list, capacity, ops[..|ops| - 1]), capacity, ops[|ops| - 1])
  }

  // ---------------------------------------------------------------- the eviction loop on an overfull list

  /** The loop stops at this front of the list. */
  predicate Stops(list: seq<Item>, k: nat, capacity: nat, need: nat)
    requires k <= |list|
  {
    Wrap(capacity - Sizes(list[..k])) >= need
  }

  /** The longest front within the budget. */
  ghost predicate WithinAt(list: seq<Item>, m: nat, capacity: nat) {
    && m < |list| && Sizes(list[..m]) <= capacity
    && (forall k :: m < k <= |list| ==> Sizes(list[..k]) > capacity)
  }

  lemma WrapLess(a: int, b: nat)
    ensures Wrap(Wrap(a) + b) == Wrap(a + b)
  {
  }

  lemma FrontSize(list: seq<Item>, n: nat)
    requires 0 < n <= |list|
    ensures list[..n][..n - 1] == list[..n - 1] && list[..n][n - 1] == list[n - 1]
    ensures Sizes(list[..n]) == Sizes(list[..n - 1]) + list[n - 1].size
  {
    assert list[..n][..n - 1] == list[..n - 1];
  }

  lemma EvictOnce(list: seq<Item>, margin: nat, need: nat)
    requires list != [] && margin < need
    ensures Evict(list, margin, need) == Evict(list[..|list| - 1], Wrap(margin + list[|list| - 1].size), need)
  {
    hide Wrap;
  }

  /** One turn of the loop, on the fronts of a list. */
  lemma LoopStep(list: seq<Item>, n: nat, capacity: nat, need: nat)
    requires 0 < n <= |list| && !Stops(list, n, capacity, need)
    ensures Evict(list[..n], Wrap(capacity - Sizes(list[..n])), need)
         == Evict(list[..n - 1], Wrap(capacity - Sizes(list[..n - 1])), need)
  {
    FrontSize(list, n);
    hide Sizes, Wrap, Evict;
    EvictOnce(list[..n], Wrap(capacity - Sizes(list[..n])), need);
    WrapLess(capacity - Sizes(list[..n]), list[n - 1].size);
  }

  /** The loop runs down to the longest front within the budget unless it stops at a longer one. */
  lemma {:induction false} LoopReaches(list: seq<Item>, n: nat, m: nat, capacity: nat, need: nat)
    requires m <= n <= |list|
    requires forall k :: m < k <= n ==> !Stops(list, k, capacity, need)
    ensures Evict(list[..n], Wrap(capacity - Sizes(list[..n])), need)
         == Evict(list[..m], Wrap(capacity - Sizes(list[..m])), need)
  {
    hide Evict, Stops, Sizes, Wrap;
    if m < n {
      LoopStep(list, n, capacity, need);
      LoopReaches(list, n - 1, m, capacity, need);
    }
  }

  lemma LoopEnds(list: seq<Item>, k: nat, capacity: nat, need: nat)
    requires k <= |list| && Stops(list, k, capacity, need)
    ensures Evict(list[..k], Wrap(capacity - Sizes(list[..k])), need) == Some(list[..k])
  {
    hide Sizes, Wrap;
  }

  lemma {:induction false} LongestStop(list: seq<Item>, n: nat, m: nat, capacity: nat, need: nat) returns (k: nat)
    requires m < n <= |list| && exists j :: m < j <= n && Stops(list, j, capacity, need)
    ensures m < k <= n && Stops(list, k, capacity, need)
    ensures forall j :: k < j <= n ==> !Stops(list, j, capacity, need)
  {
    hide Stops;
    if Stops(list, n, capacity, need) { k := n; } else { k := LongestStop(list, n - 1, m, capacity, need); }
  }

  /**
   Storing an absent pair brings an overfull list back within the budget, or empties it by a
   panic, if and only if the check asks for room and the loop stops at no front that is itself
   over the budget.
   */
  lemma BackWithinExactly(list: seq<Item>, m: nat, capacity: nat, need: nat)
    requires capacity < WRAP && WithinAt(list, m, capacity)
    ensures var kept := Room(list, Wrap(Sizes(list)), capacity, need);
            (kept.None? || Sizes(kept.value) + need <= capacity) <==>
              && Wrap(Wrap(Sizes(list)) + need) > capacity
              && (forall k :: m < k <= |list| ==> !Stops(list, k, capacity, need))
  {
    hide Wrap, Sizes, Stops, Evict;
    assert list[..|list|] == list;
    if Wrap(Wrap(Sizes(list)) + need) > capacity {
      if forall k :: m < k <= |list| ==> !Stops(list, k, capacity, need) {
        NoStop(list, m, capacity, need);
      } else {
        StopsOver(list, m, capacity, need);
      }
    }
  }

  lemma RoomIsLoop(list: seq<Item>, capacity: nat, need: nat)
    requires Wrap(Wrap(Sizes(list)) + need) > capacity
    ensures Room(list, Wrap(Sizes(list)), capacity, need)
         == Evict(list[..|list|], Wrap(capacity - Sizes(list[..|list|])), need)
  {
    assert list[..|list|] == list;
    hide Sizes, Evict;
    MarginOf(list, capacity);
  }

  lemma NoStop(list: seq<Item>, m: nat, capacity: nat, need: nat)
    requires capacity < WRAP && m <= |list| && Sizes(list[..m]) <= capacity
    requires Wrap(Wrap(Sizes(list)) + need) > capacity
    requires forall k :: m < k <= |list| ==> !Stops(list, k, capacity, need)
    ensures var kept := Room(list, Wrap(Sizes(list)), capacity, need);
            kept.None? || Sizes(kept.value) + need <= capacity
  {
    hide Wrap, Sizes, Stops, Evict, Room;
    RoomIsLoop(list, capacity, need);
    LoopReaches(list, |list|, m, capacity, need);
    FrontInOrder(list[..m], capacity, need);
  }

  lemma StopsOver(list: seq<Item>, m: nat, capacity: nat, need: nat)
    requires WithinAt(list, m, capacity) && Wrap(Wrap(Sizes(list)) + need) > capacity
    requires exists k :: m < k <= |list| && Stops(list, k, capacity, need)
    ensures var kept := Room(list, Wrap(Sizes(list)), capacity, need);
            kept.Some? && Sizes(kept.value) > capacity
  {
    hide Wrap, Sizes, Stops, Evict, Room;
    var k := LongestStop(list, |list|, m, capacity, need);
    RoomIsLoop(list, capacity, need);
    LoopReaches(list, |list|, k, capacity, need);
    LoopEnds(list, k, capacity, need);
  }

  lemma MarginOf(list: seq<Item>, capacity: nat)
    ensures Wrap(capacity - Wrap(Sizes(list))) == Wrap(capacity - Sizes(list))
  {
    hide Sizes;
  }

  lemma FrontInOrder(front: seq<Item>, capacity: nat, need: nat)
    requires Sizes(front) <= capacity < WRAP
    ensures var kept := Evict(front, Wrap(capacity - Sizes(front)), need);
            kept.None? || Sizes(kept.value) + need <= capacity
  {
    hide Sizes, Evict;
    EvictsShortestTail(front, capacity, need);
  }

  /** Such a list: four bytes and a node of 2^32 - 1 bytes under a capacity of eight, and six bytes to store. */
  lemma HugeNodeBringsBack(a: Item, b: Item)
    requires a.size == 4 && b.size == WRAP - 1
    ensures Sizes([a, b]) > 8 && Room([a, b], Wrap(Sizes([a, b])), 8, 6) == Some([])
  {
    assert [a, b][..1] == [a] && [a][..0] == [];
    assert Sizes([a]) == 4 && Sizes([a, b]) == WRAP + 3;
    assert Evict([a], 4, 6) == Some([]);
    assert Evict([a, b], 5, 6) == Some([]);
  }

  // ---------------------------------------------------------------- whole runs

  /** No two pairs of the list, the new one included, are larger than 2^32 together. */
  ghost predicate Small(list: seq<Item>, need: nat) {
    forall i :: 0 <= i < |list| ==> list[i].size + need <= WRAP
  }

  /** Then the loop cannot step over the sizes at which it stops. */
  lemma {:induction false} SmallStaysOver(list: seq<Item>, capacity: nat, need: nat)
    requires capacity < WRAP && need < WRAP && Sizes(list) > capacity && Small(list, need)
    ensures var kept := Evict(list, Wrap(capacity - Sizes(list)), need);
            kept.Some? && kept.value <= list && Sizes(kept.value) > capacity
  {
    var n := |list|;
    assert list != [] && list[..n] == list;
    FrontSize(list, n);
    hide Evict, Wrap, Sizes;
    if Stops(list, n, capacity, need) {
      LoopEnds(list, n, capacity, need);
    } else {
      LoopStep(list, n, capacity, need);
      StepStaysOver(Sizes(list), list[n - 1].size, capacity, need);
      SmallStaysOver(list[..n - 1], capacity, need);
    }
  }

  lemma StepStaysOver(s: nat, x: nat, capacity: nat, need: nat)
    requires capacity < WRAP && need < WRAP && s > capacity && x <= s && x + need <= WRAP
    requires Wrap(capacity - s) < need
    ensures s - x > capacity
  {
    assert s - capacity <= WRAP ==> Wrap(capacity - s) == capacity - s + WRAP;
  }

  /** Every node of the list and every pair stored is at most half of 2^32 bytes. */
  ghost predicate AllHalf(list: seq<Item>) {
    forall i :: 0 <= i < |list| ==> list[i].size <= WRAP / 2
  }

  ghost predicate OpsHalf(ops: seq<Op>) {
    forall i :: 0 <= i < |ops| ==> (ops[i].Touch? || ops[i].x.size <= WRAP / 2)
  }

  lemma NextStaysOver(list: seq<Item>, capacity: nat, op: Op)
    requires capacity < WRAP && Sizes(list) > capacity && AllHalf(list) && (op.Touch? || op.x.size <= WRAP / 2)
    ensures AllHalf(Next(list, capacity, op)) && Sizes(Next(list, capacity, op)) > capacity
  {
    MarginOf(list, capacity);
    if op.Add? {
      SmallStaysOver(list, capacity, op.x.size);
      hide Wrap, Sizes, Evict;
      var kept := Kept(list, capacity, op.x.size);
      assert kept <= list;
      SizeOfStored([op.x] + kept);
      assert ([op.x] + kept)[1..] == kept;
    } else if op.i < |list| {
      hide Wrap, Sizes, Evict;
      MovedSame(list, op.i);
      MovedHalf(list, op.i);
      var moved := Moved(list, op.i);
      if op.Reset? {
        SizeOfStored([op.x] + moved);
        assert ([op.x] + moved)[1..] == moved;
      }
    }
  }

  lemma MovedHalf(list: seq<Item>, i: nat)
    requires i < |list| && AllHalf(list)
    ensures AllHalf(Moved(list, i))
  {
  }

  /** An overfull cache of pairs up to 2^31 bytes never comes back within its budget, whatever is done with it. */
  lemma {:induction false} OverfullForever(list: seq<Item>, capacity: nat, ops: seq<Op>)
    requires capacity < WRAP && Sizes(list) > capacity && AllHalf(list) && OpsHalf(ops)
    ensures AllHalf(Exec(list, capacity, ops)) && Sizes(Exec(list, capacity, ops)) > capacity
  {
    hide Next, Sizes;
    if ops != [] {
      OverfullForever(list, capacity, ops[..|ops| - 1]);
      NextStaysOver(Exec(list, capacity, ops[..|ops| - 1]), capacity, ops[|ops| - 1]);
    }
  }

  /** In such a cache a Set is one of these steps, and the cache stays overfull. */
  method SetWhenOverfull(c: BuildInMapCache, key: string, val: nat, deadline: Option<int>, pairSize: nat)
    returns (ok: bool)
    requires c.Valid() && pairSize <= WRAP / 2 && Sizes(c.list) > c.capacity && AllHalf(c.list)
    modifies c, c.head`prev, c.head`next, c.tail`prev, c.tail`next, c.list`prev, c.list`next, c.list`value
    ensures c.Valid() && ok && key in c.data && c.data[key].size == pairSize
    ensures c.list == Next(old(c.list), c.capacity, Add(c.data[key]))
            || exists i: nat :: i < |old(c.list)| && c.list == Next(old(c.list), c.capacity, Reset(i, c.data[key]))
    ensures AllHalf(c.list) && Sizes(c.list) > c.capacity
  {
    ghost var before, present := c.list, key in c.data;
    RoomWhenOver(before, c.capacity, pairSize);
    hide Sizes, Wrap, Evict, Linked, KeysOf, LongestFit, Moved, Next, Room, Resets, AllHalf;
    ok := c.Set(key, val, deadline, pairSize);
    var stored := c.data[key];
    if present {
      ghost var i := ResetStep(before, c.list, c.capacity, stored);
      NextStaysOver(before, c.capacity, Reset(i, stored));
    } else {
      AddStep(before, c.list, c.capacity, stored);
      NextStaysOver(before, c.capacity, Add(stored));
    }
  }

  lemma RoomWhenOver(list: seq<Item>, capacity: nat, need: nat)
    requires capacity < WRAP && need <= WRAP / 2 && Sizes(list) > capacity && AllHalf(list)
    ensures Room(list, Wrap(Sizes(list)), capacity, need).Some?
  {
    hide Sizes, Wrap, Evict;
    MarginOf(list, capacity);
    SmallStaysOver(list, capacity, need);
  }

  lemma ResetStep(before: seq<Item>, after: seq<Item>, capacity: nat, stored: Item) returns (i: nat)
    requires exists node :: Resets(before, after, node, stored)
    ensures i < |before| && after == Next(before, capacity, Reset(i, stored))
  {
    hide Moved;
    var node :| Resets(before, after, node, stored);
    i :| i < |before| && before[i] == node && after == [stored] + Moved(before, i);
  }

  lemma AddStep(before: seq<Item>, after: seq<Item>, capacity: nat, stored: Item)
    requires 0 < |after| <= |before| + 1 && after == [stored] + before[..|after| - 1]
    requires Some(before[..|after| - 1]) == Room(before, Wrap(Sizes(before)), capacity, stored.size)
    ensures after == Next(before, capacity, Add(stored))
  {
    hide Sizes, Wrap, Room;
  }
}
