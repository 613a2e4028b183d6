/**
 The byte-budgeted cache of cache/localCache.go: a map of keys to nodes of a doubly linked
 list between two sentinels, most recently stored first. Sizes are 32-bit and wrap. The
 size of a key-value pair and the clock are inputs; values are opaque. Every operation runs
 under one lock, so a run is a sequence of operations.
 */
module Cache {
  import opened Common

  const WRAP := 0x1_0000_0000

  /** The result of 32-bit unsigned arithmetic whose exact result would be x. */
  function Wrap(x: int): (r: nat)
    ensures r < WRAP
    ensures 0 <= x < WRAP ==> r == x
    ensures WRAP <= x < 2 * WRAP ==> r == x - WRAP
    ensures -WRAP <= x < 0 ==> r == x + WRAP
  {
    x % WRAP
  }

  lemma WrapWrap(a: int, b: int)
    ensures Wrap(Wrap(a) + b) == Wrap(a + b)
  {
  }

  class Item {
    const key: string
    const size: nat
    const deadline: Option<int>
    var value: nat
    var prev: Item?
    var next: Item?

    constructor (key: string, value: nat, deadline: Option<int>, size: nat)
      ensures this.key == key && this.value == value && this.deadline == deadline && this.size == size
      ensures prev == null && next == null
    {
      this.key, this.size, this.deadline := key, size, deadline;
      this.value, prev, next := value, null, null;
    }
  }

  /** A chain of distinct nodes, each pointing to its neighbours. */
  ghost predicate Linked(all: seq<Item>)
    reads all`prev, all`next
  {
    && (forall i, j :: 0 <= i < j < |all| ==> all[i] != all[j])
    && (forall i :: 0 <= i < |all| - 1 ==> all[i].next == all[i + 1] && all[i + 1].prev == all[i])
  }

  function Sizes(list: seq<Item>): nat {
    if list == [] then 0 else Sizes(list[..|list| - 1]) + list[|list| - 1].size
  }

  lemma {:induction false} SizesConcat(a: seq<Item>, b: seq<Item>)
    ensures Sizes(a + b) == Sizes(a) + Sizes(b)
  {
    if b == [] {
      assert a + b == a;
    } else {
      assert (a + b)[..|a + b| - 1] == a + b[..|b| - 1];
      SizesConcat(a, b[..|b| - 1]);
    }
  }

  /** Unlinks the node at position i of a chain; the node keeps its own pointers. */
  method RemoveNode(node: Item, ghost all: seq<Item>, ghost i: nat)
    requires Linked(all) && 0 < i < |all| - 1 && all[i] == node
    modifies all`prev, all`next
    ensures Linked(all[..i] + all[i + 1..]) && node.prev == all[i - 1]
    ensures all[|all| - 1].next == old(all[|all| - 1].next) && all[0].prev == old(all[0].prev)
  {
    var p, n := all[i - 1], all[i + 1];
    assert node.prev == p && node.next == n;
    node.prev.next := node.next;
    node.next.prev := node.prev;
    ghost var rest := all[..i] + all[i + 1..];
    forall j | 0 <= j < |rest| - 1 ensures rest[j].next == rest[j + 1] && rest[j + 1].prev == rest[j] {
      if j < i - 1 {
        assert all[j].next == all[j + 1] && all[j + 1].prev == all[j];
      } else if j >= i {
        assert all[j + 1].next == all[j + 2] && all[j + 2].prev == all[j + 1];
      }
    }
  }

  /** Links a node in right after the first of a chain. */
  method AddToHead(head: Item, node: Item, ghost all: seq<Item>)
    requires Linked(all) && |all| >= 2 && node !in all && all[0] == head
    modifies all`prev, all`next, node`prev, node`next
    ensures Linked([head, node] + all[1..])
    ensures head.prev == old(head.prev)
  {
    assert all[0].next == all[1];
    node.next := head.next;
    node.prev := head;
    head.next.prev := node;
    head.next := node;
    ghost var longer := [head, node] + all[1..];
    forall j | 0 <= j < |longer| - 1 ensures longer[j].next == longer[j + 1] && longer[j + 1].prev == longer[j] {
      if j >= 2 {
        assert all[j - 1].next == all[j] && all[j].prev == all[j - 1];
      }
    }
  }

  // ---------------------------------------------------------------- eviction

  /** What the eviction loop leaves of the list; None when it runs into the head sentinel and panics. */
  function Evict(list: seq<Item>, margin: nat, need: nat): Option<seq<Item>> {
    if margin >= need then Some(list)
    else if list == [] then None
    else Evict(list[..|list| - 1], Wrap(margin + list[|list| - 1].size), need)
  }

  /** The longest front of the list that leaves room for `need` bytes. */
  ghost predicate LongestFit(list: seq<Item>, m: nat, capacity: nat, need: nat) {
    && m <= |list| && Sizes(list[..m]) + need <= capacity
    && (forall k :: m < k <= |list| ==> Sizes(list[..k]) + need > capacity)
  }

  /** With the books in order the loop removes exactly the shortest tail that makes room. */
  lemma {:induction false} EvictsShortestTail(list: seq<Item>, capacity: nat, need: nat)
    requires Sizes(list) <= capacity < WRAP
    ensures Evict(list, capacity - Sizes(list), need).Some? <==> need <= capacity
    ensures need <= capacity ==>
              exists m :: 0 <= m <= |list| && LongestFit(list, m, capacity, need)
                          && Evict(list, capacity - Sizes(list), need) == Some(list[..m])
  {
    if Sizes(list) + need <= capacity {
      assert list[..|list|] == list;
      assert LongestFit(list, |list|, capacity, need);
    } else if list != [] {
      hide Wrap;
      var front := list[..|list| - 1];
      EvictsShortestTail(front, capacity, need);
      assert Evict(list, capacity - Sizes(list), need) == Evict(front, capacity - Sizes(front), need);
      if need <= capacity {
        hide Evict;
        var m :| 0 <= m <= |front| && LongestFit(front, m, capacity, need)
                 && Evict(front, capacity - Sizes(front), need) == Some(front[..m]);
        FitOfFront(list, m, capacity, need);
      }
    }
  }

  lemma FitOfFront(list: seq<Item>, m: nat, capacity: nat, need: nat)
    requires list != [] && Sizes(list) + need > capacity
    requires LongestFit(list[..|list| - 1], m, capacity, need)
    ensures LongestFit(list, m, capacity, need) && list[..m] == list[..|list| - 1][..m]
  {
    hide Sizes;
    var front := list[..|list| - 1];
    forall k | m < k <= |list| ensures Sizes(list[..k]) + need > capacity {
      if k < |list| { assert list[..k] == front[..k]; } else { assert list[..k] == list; }
    }
    assert list[..m] == front[..m];
  }

  /** What storing an absent key leaves of the list before the new node is added. */
  function Room(list: seq<Item>, size: nat, capacity: nat, need: nat): Option<seq<Item>> {
    if Wrap(size + need) > capacity then Evict(list, Wrap(capacity - size), need) else Some(list)
  }

  /**
   From a state within budget, storing an absent pair that fits the capacity ends within budget
   exactly when size + need does not overflow 32 bits; otherwise nothing is evicted.
   */
  lemma BudgetKeptExactly(list: seq<Item>, capacity: nat, need: nat)
    requires Sizes(list) <= capacity < WRAP && need <= capacity
    ensures Room(list, Sizes(list), capacity, need).Some?
    ensures var kept := Room(list, Sizes(list), capacity, need).value;
            Sizes(kept) + need <= capacity <==> Sizes(list) + need < WRAP
    ensures Sizes(list) + need < WRAP ==>
              exists m :: 0 <= m <= |list| && LongestFit(list, m, capacity, need)
                          && Room(list, Sizes(list), capacity, need) == Some(list[..m])
    ensures Sizes(list) + need >= WRAP ==> Room(list, Sizes(list), capacity, need) == Some(list)
  {
    hide Wrap, Evict, Sizes;
    EvictsShortestTail(list, capacity, need);
    if Sizes(list) + need <= capacity {
      assert list[..|list|] == list;
      assert LongestFit(list, |list|, capacity, need);
    } else if Sizes(list) + need < WRAP {
      assert Room(list, Sizes(list), capacity, need) == Evict(list, capacity - Sizes(list), need);
    }
  }

  /** Once the size is past the capacity the margin wraps, and pairs that fit are stored without eviction. */
  lemma OverfullNeverEvicts(list: seq<Item>, size: nat, capacity: nat, need: nat)
    requires capacity < size < WRAP && need <= WRAP - (size - capacity)
    ensures Room(list, size, capacity, need) == Some(list)
  {
    assert Wrap(capacity - size) == capacity - size + WRAP;
  }

  function KeysOf(nodes: seq<Item>): set<string> {
    set x | x in nodes :: x.key
  }

  predicate IsExpired(x: Item, now: int) {
    x.deadline.Some? && x.deadline.value < now
  }

  predicate IsNewNode(x: Item, key: string, val: nat, deadline: Option<int>, size: nat)
    reads x`value
  {
    x.key == key && x.value == val && x.deadline == deadline && x.size == size
  }

  class BuildInMapCache {
    var data: map<string, Item>
    const head: Item
    const tail: Item
    var size: nat
    const capacity: nat
    ghost var list: seq<Item>

    ghost function Chain(): seq<Item>
      reads this
    {
      [head] + list + [tail]
    }

    /** The list is well linked, the size is its sum up to wrapping, every map entry is a node of the list. */
    ghost predicate Valid()
      reads this, head, tail, list
    {
      && Linked(Chain()) && head.prev == null && head.size == 0
      && size == Wrap(Sizes(list)) && capacity < WRAP
      && (forall k :: k in data ==> data[k] in list && data[k].key == k)
    }

    constructor (capacity: nat)
      requires capacity < WRAP
      ensures Valid() && fresh(head) && fresh(tail) && list == [] && data == map[] && size == 0
              && this.capacity == capacity
    {
      var h := new Item("head", 0, None, 0);
      var t := new Item("tail", 0, None, 0);
      h.next := t;
      t.prev := h;
      head, tail := h, t;
      data, size, list := map[], 0, [];
      this.capacity := capacity;
    }

    /** Links a node that is not in the list in at the front. */
    method LinkFirst(node: Item)
      requires Linked(Chain()) && node !in Chain()
      modifies this`list, head`prev, head`next, tail`prev, tail`next, list`prev, list`next, node`prev, node`next
      ensures list == [node] + old(list) && Linked(Chain()) && head.prev == old(head.prev)
    {
      AddToHead(head, node, Chain());
      assert [head, node] + Chain()[1..] == [head] + ([node] + list) + [tail];
      list := [node] + list;
    }

    /** Stores a new node for the key at the front; whatever node the key had stays in the list. */
    method Store(key: string, val: nat, deadline: Option<int>, pairSize: nat) returns (node: Item)
      requires Valid() && pairSize < WRAP
      modifies this, head`prev, head`next, tail`prev, tail`next, list`prev, list`next
      ensures Valid() && fresh(node)
      ensures node.key == key && node.value == val && node.size == pairSize && node.deadline == deadline
      ensures list == [node] + old(list) && data == old(data)[key := node] && size == Wrap(old(size) + pairSize)
      ensures Sizes(list) == Sizes(old(list)) + pairSize
    {
      node := new Item(key, val, deadline, pairSize);
      hide Linked, Wrap;
      ghost var before := list;
      LinkFirst(node);
      data := data[key := node];
      SizesConcat([node], before);
      assert Sizes([node]) == pairSize by { OneSize(node); }
      WrapWrap(Sizes(before), pairSize);
      size := Wrap(size + pairSize);
    }

    /** Unlinks a node of the list, wherever it is. */
    method Unlink(node: Item, ghost i: nat)
      requires Linked(Chain()) && i < |list| && list[i] == node
      modifies this`list, head`prev, head`next, tail`prev, tail`next, list`prev, list`next
      ensures list == old(list)[..i] + old(list)[i + 1..] && Linked(Chain()) && head.prev == old(head.prev)
      ensures node.prev == old(Chain())[i]
    {
      hide Linked;
      ghost var all := Chain();
      assert all[i + 1] == node;
      RemoveNode(node, all, i + 1);
      assert all[..i + 1] + all[i + 2..] == [head] + (list[..i] + list[i + 1..]) + [tail];
      list := list[..i] + list[i + 1..];
    }

    /** Drops the last node of the list, and its key from the map. */
    method RemoveTail() returns (node: Item)
      requires Valid() && list != []
      modifies this, head`prev, head`next, tail`prev, tail`next, list`prev, list`next
      ensures Valid() && node == old(list)[|old(list)| - 1] && list == old(list)[..|old(list)| - 1]
      ensures data == old(data) - {node.key} && size == Wrap(old(size) - node.size)
      ensures node.prev == tail.prev
    {
      hide Linked;
      ghost var n, before := |list| - 1, list;
      LastBeforeTail();
      node := tail.prev;
      assert node == before[n];
      Unlink(node, n);
      assert before[..n] + before[n + 1..] == before[..n];
      TailFollowsLast();
      data := data - {node.key};
      WrapWrap(Sizes(before), 0 - node.size);
      size := Wrap(size - node.size);
      assert forall k :: k in data ==> data[k] in before && data[k] != node;
    }

    lemma TailFollowsLast()
      requires Linked(Chain())
      ensures tail.prev == Chain()[|list|]
    {
      assert Chain()[|list|].next == Chain()[|list| + 1];
    }

    lemma LastBeforeTail()
      requires Valid()
      ensures tail.prev == Chain()[|list|]
    {
      TailFollowsLast();
    }

    /** Walking back from the tail, only the head sentinel has no predecessor. */
    lemma OnlyHeadHasNoPrev()
      requires Valid()
      ensures Chain()[|list|].prev == null <==> list == []
    {
      var n := |list|;
      if n > 0 { assert Chain()[n - 1].next == Chain()[n] && Chain()[n].prev == Chain()[n - 1]; }
    }

    /** The eviction loop: from the tail towards the head until the margin suffices; false on the panic. */
    method MakeRoom(pairSize: nat) returns (ok: bool)
      requires Valid()
      modifies this, head`prev, head`next, tail`prev, tail`next, list`prev, list`next
      ensures Valid() && |list| <= |old(list)| && list == old(list)[..|list|]
      ensures var kept := Evict(old(list), Wrap(capacity - old(size)), pairSize);
              ok == kept.Some? && (ok ==> list == kept.value) && (!ok ==> list == [])
      ensures data == old(data) - KeysOf(old(list)[|list|..])
    {
      hide Valid, Evict, Sizes, Wrap, KeysOf, Linked;
      ghost var all := list;
      var margin: nat := Wrap(capacity - size);
      var p := tail.prev;
      assert all[..|all|] == all && all[|all|..] == [];
      NoKeysOfNone(data);
      LastBeforeTail();
      while margin < pairSize
        invariant Valid() && |list| <= |all| && list == all[..|list|] && p == tail.prev && p == Chain()[|list|]
        invariant Evict(list, margin, pairSize) == Evict(all, Wrap(capacity - old(size)), pairSize)
        invariant data == old(data) - KeysOf(all[|list|..])
        decreases |list|
      {
        OnlyHeadHasNoPrev();
        if p.prev == null {
          EvictEnds(margin, pairSize);
          return false;
        }
        EvictStep(all, |list|, margin, pairSize);
        margin := Wrap(margin + p.size);
        ghost var n := |list|;
        assert list[n - 1] == all[n - 1] && list[..n - 1] == all[..n - 1];
        var q := RemoveTail();
        LastBeforeTail();
        p := p.prev;
      }
      EvictStops(list, margin, pairSize);
      ok := true;
    }

    /** Moves a node of the list to the front; nothing else changes. */
    method MoveToHead(node: Item, ghost i: nat)
      requires Valid() && i < |list| && list[i] == node
      modifies this`list, head`prev, head`next, tail`prev, tail`next, list`prev, list`next
      ensures Valid() && list == Moved(old(list), i)
      ensures Sizes(list) == Sizes(old(list)) && multiset(list) == multiset(old(list))
      ensures forall x :: x in list <==> x in old(list)
    {
      hide Linked, Sizes, Wrap;
      ghost var before := list;
      NodeOnlyOnce(i);
      MovedSame(before, i);
      Unlink(node, i);
      LinkFirst(node);
      assert list == Moved(before, i);
    }

    lemma NodeOnlyOnce(i: nat)
      requires Linked(Chain()) && i < |list|
      ensures list[i] !in [head] + (list[..i] + list[i + 1..]) + [tail]
    {
      var all := Chain();
      assert all[i + 1] == list[i] && all[0] == head && all[|all| - 1] == tail;
      assert forall j :: 0 <= j < |list| ==> all[j + 1] == list[j];
    }

    /** The key is there: new value into its old node, which moves to the front, then a second node before it. */
    method SetPresent(key: string, val: nat, deadline: Option<int>, pairSize: nat)
      requires Valid() && pairSize < WRAP && key in data
      modifies this, head`prev, head`next, tail`prev, tail`next, list`prev, list`next, list`value
      ensures Valid() && key in data && IsNewNode(data[key], key, val, deadline, pairSize) && fresh(data[key])
      ensures data == old(data)[key := data[key]] && size == Wrap(old(size) + pairSize)
      ensures Resets(old(list), list, old(data)[key], data[key]) && Sizes(list) == Sizes(old(list)) + pairSize
      ensures old(data)[key].value == val && forall x :: x in list ==> x in old(list) || x == data[key]
      ensures forall x :: x in old(list) && x != old(data)[key] ==> x.value == old(x.value)
    {
      hide Wrap, Linked, Sizes, Resets, Moved;
      var node := data[key];
      ghost var i :| 0 <= i < |list| && list[i] == node;
      ghost var before := list;
      node.value := val;
      MoveToHead(node, i);
      assert forall j :: 0 <= j < |list| ==> list[j] in before;
      var stored := Store(key, val, deadline, pairSize);
      ResetsAt(before, i, stored);
    }

    /** The key is not there: room is made first if the budget asks for it. False is the panic. */
    method SetAbsent(key: string, val: nat, deadline: Option<int>, pairSize: nat) returns (ok: bool)
      requires Valid() && pairSize < WRAP && key !in data
      modifies this, head`prev, head`next, tail`prev, tail`next, list`prev, list`next
      ensures Valid()
      ensures var kept := Room(old(list), old(size), capacity, pairSize);
              && ok == kept.Some?
              && (ok ==> && key in data && fresh(data[key]) && IsNewNode(data[key], key, val, deadline, pairSize)
                         && |kept.value| <= |old(list)| && kept.value == old(list)[..|kept.value|]
                         && list == [data[key]] + kept.value
                         && data == (old(data) - KeysOf(old(list)[|kept.value|..]))[key := data[key]])
              && (!ok ==> list == [] && key !in data)
      ensures forall x :: x in list ==> x in old(list) || (ok && x == data[key])
    {
      hide Evict, Wrap, Linked, Sizes, KeysOf;
      assert list[..|list|] == list && list[|list|..] == [];
      NoKeysOfNone(data);
      ok := true;
      if Wrap(size + pairSize) > capacity {
        ok := MakeRoom(pairSize);
      }
      if ok {
        var stored := Store(key, val, deadline, pairSize);
      }
    }

    /**
     Set. A present key adds its bytes without any check, so the budget holds afterwards exactly
     when there was room for them. An absent pair that fits the capacity, stored from within the
     budget, evicts the shortest tail and ends within the budget exactly when size + pairSize
     does not overflow 32 bits. A key survives exactly when no node of that key was evicted,
     not even one that an earlier Set of the key had left behind.
     */
    method Set(key: string, val: nat, deadline: Option<int>, pairSize: nat) returns (ok: bool)
      requires Valid() && pairSize < WRAP
      modifies this, head`prev, head`next, tail`prev, tail`next, list`prev, list`next, list`value
      ensures Valid()
      ensures ok <==> key in old(data) || Room(old(list), old(size), capacity, pairSize).Some?
      ensures ok ==> key in data && fresh(data[key]) && IsNewNode(data[key], key, val, deadline, pairSize)
      ensures forall x :: x in list ==> x in old(list) || fresh(x)
      ensures forall x :: x in old(list) && !(key in old(data) && x == old(data)[key]) ==> x.value == old(x.value)
      ensures key in old(data) ==>
                && data == old(data)[key := data[key]] && size == Wrap(old(size) + pairSize)
                && Resets(old(list), list, old(data)[key], data[key])
                && Sizes(list) == Sizes(old(list)) + pairSize
                && (Sizes(list) <= capacity <==> Sizes(old(list)) + pairSize <= capacity)
      ensures key !in old(data) && ok ==>
                && 0 < |list| <= |old(list)| + 1
                && Some(old(list)[..|list| - 1]) == Room(old(list), old(size), capacity, pairSize)
                && list == [data[key]] + old(list)[..|list| - 1]
                && (forall k :: k in data <==> k == key || (k in old(data) && k !in KeysOf(old(list)[|list| - 1..])))
                && (forall k :: k in data && k != key ==> data[k] == old(data)[k])
      ensures key !in old(data) && Sizes(old(list)) <= capacity && pairSize <= capacity ==>
                && ok && (Sizes(list) <= capacity <==> Sizes(old(list)) + pairSize < WRAP)
                && (if Sizes(old(list)) + pairSize < WRAP
                    then size == Sizes(list) && LongestFit(old(list), |list| - 1, capacity, pairSize)
                    else list == [data[key]] + old(list))
    {
      hide Evict, Linked, Sizes, KeysOf, LongestFit, Room, Resets;
      if key in data {
        SetPresent(key, val, deadline, pairSize);
        return true;
      }
      ok := SetAbsent(key, val, deadline, pairSize);
      if ok {
        assert list[1..] == old(list)[..|list| - 1];
      }
      if Sizes(old(list)) <= capacity && pairSize <= capacity {
        BudgetKeptExactly(old(list), capacity, pairSize);
        SizeOfStored(list);
        WholeOrPrefix(old(list), |list| - 1);
      }
    }

    /** The first lock region of Get: the node as it is now. */
    method Peek(key: string, now: int) returns (found: bool, expired: bool, val: nat)
      requires Valid()
      ensures found == (key in data)
      ensures found ==> val == data[key].value
      ensures found ==> (expired <==> data[key].deadline.Some? && data[key].deadline.value < now)
    {
      if key !in data { return false, false, 0; }
      return true, IsExpired(data[key], now), data[key].value;
    }

    /** The second lock region of Get, entered when the first saw an expired node. */
    method Recheck(key: string, now: int) returns (val: Option<nat>)
      requires Valid()
      modifies this, head`prev, head`next, tail`prev, tail`next, list`prev, list`next
      ensures Valid() && size == old(size) && multiset(list) == multiset(old(list))
      ensures val.Some? <==>
                key in old(data) && (old(data)[key].deadline.Some? ==> old(data)[key].deadline.value >= now)
      ensures val.Some? ==> val.value == old(data)[key].value && data == old(data) && list[..1] == [data[key]]
      ensures val.None? ==> data == old(data) - {key} && list == old(list)
    {
      hide Linked, Wrap, Sizes;
      if key !in data {
        assert data - {key} == data;
        return None;
      }
      var node := data[key];
      if IsExpired(node, now) {
        data := data - {key};
        return None;
      }
      ghost var i :| 0 <= i < |list| && list[i] == node;
      MoveToHead(node, i);
      assert list[0] == node;
      val := Some(node.value);
    }

    /**
     Get, with nothing in between its two lock regions: a key without a deadline, or with one that
     is not before now, is served with its value and nothing changes; one with an earlier deadline
     is not served, and is dropped from the map.
     */
    method Get(key: string, now: int) returns (val: Option<nat>)
      requires Valid()
      modifies this, head`prev, head`next, tail`prev, tail`next, list`prev, list`next
      ensures Valid() && list == old(list) && size == old(size)
      ensures val.Some? <==>
                key in old(data) && (old(data)[key].deadline.Some? ==> old(data)[key].deadline.value >= now)
      ensures val.Some? ==> val.value == old(data)[key].value && data == old(data)
      ensures val.None? ==> data == old(data) - {key}
    {
      hide Linked, Wrap, Sizes;
      var found, expired, v := Peek(key, now);
      if !found {
        assert data - {key} == data;
        return None;
      }
      if expired {
        val := Recheck(key, now);
      } else {
        val := Some(v);
      }
    }

    /** Delete drops the key from the map only: its node stays in the list and keeps its bytes. */
    method Delete(key: string) returns (ok: bool)
      requires Valid()
      modifies this`data
      ensures Valid() && ok == (key in old(data)) && data == old(data) - {key}
    {
      if key !in data {
        assert data - {key} == data;
        return false;
      }
      data := data - {key};
      return true;
    }
  }

  /** What a Set stored, Get returns until its deadline has passed. */
  method SetThenGet(c: BuildInMapCache, key: string, val: nat, deadline: Option<int>, pairSize: nat, now: int)
    returns (ok: bool, got: Option<nat>)
    requires c.Valid() && pairSize < WRAP
    modifies c, c.head`prev, c.head`next, c.tail`prev, c.tail`next, c.list`prev, c.list`next, c.list`value
    ensures c.Valid()
    ensures ok ==> got == if deadline.Some? && deadline.value < now then None else Some(val)
  {
    hide Linked, Wrap, KeysOf, LongestFit, Room, Resets, Evict, Sizes;
    ok := c.Set(key, val, deadline, pairSize);
    assert forall j :: 0 <= j < |c.list| ==> c.list[j] in old(c.list) || fresh(c.list[j]);
    got := None;
    if ok {
      got := c.Get(key, now);
    }
  }

  /** Storing a present key again can pass the budget: eight bytes twice under one key, capacity eight. */
  method ResettingOverfills() returns (c: BuildInMapCache)
    ensures fresh(c) && c.Valid() && c.capacity == 8 && Sizes(c.list) == 16 && c.data.Keys == {"k"}
  {
    hide Linked, Wrap, KeysOf, LongestFit, Room, Resets, Evict;
    c := new BuildInMapCache(8);
    var ok := c.Set("k", 0, None, 8);
    ok := c.Set("k", 1, None, 8);
  }

  /** A size that wraps to zero is not seen as too large: all of 2^32 - 1 bytes taken, then one byte more. */
  method WrappingOverfills() returns (c: BuildInMapCache)
    ensures fresh(c) && c.Valid() && c.capacity == WRAP - 1 && Sizes(c.list) == WRAP && c.size == 0
  {
    hide Linked, KeysOf, LongestFit, Evict, Resets;
    c := new BuildInMapCache(WRAP - 1);
    var ok := c.Set("a", 0, None, WRAP - 1);
    SizeOfStored(c.list);
    assert c.list[1..] == [];
    ok := c.Set("b", 0, None, 1);
    SizeOfStored(c.list);
  }

  /** The cache after k, k at capacity 24: the older node is still there, last. */
  method SetTwice(k: string) returns (c: BuildInMapCache)
    ensures fresh(c) && fresh(c.head) && fresh(c.tail) && (forall x :: x in c.list ==> fresh(x))
    ensures c.Valid() && c.capacity == 24 && c.data.Keys == {k}
    ensures |c.list| == 2 && c.data[k] == c.list[0] && c.list[0].value == 1
    ensures c.list[0].key == c.list[1].key == k && c.list[0].size == c.list[1].size == 8
  {
    hide Linked, Evict, Wrap, KeysOf, LongestFit, Room, Resets;
    c := new BuildInMapCache(24);
    var ok := c.Set(k, 0, None, 8);
    ghost var k0 := c.data[k];
    assert c.list == [k0];
    ok := c.Set(k, 1, None, 8);
    ResetsOne(k0, c.list, c.data[k]);
  }

  /** The cache after k, k, j: full. */
  method SetThree(k: string, j: string) returns (c: BuildInMapCache)
    requires k != j
    ensures fresh(c) && fresh(c.head) && fresh(c.tail) && (forall x :: x in c.list ==> fresh(x))
    ensures c.Valid() && c.capacity == 24 && c.data.Keys == {j, k}
    ensures |c.list| == 3 && c.list[1].value == 1 && c.list[1].key == c.list[2].key == k
    ensures c.list[0].size == c.list[1].size == c.list[2].size == 8
  {
    hide Linked, Evict, Wrap, KeysOf, LongestFit, Room, Resets, Sizes;
    c := SetTwice(k);
    ghost var k1, k0 := c.list[0], c.list[1];
    assert k1 in c.list && k0 in c.list;
    SizesOfThree(k1, k1, k0);
    assert c.list == [k1, k0];
    var ok := c.Set(j, 2, None, 8);
    AllFit([k1, k0], |c.list| - 1, 24, 8);
    assert [k1, k0][..2] == [k1, k0] && [k1, k0][2..] == [];
    NoKeys();
    assert c.list == [c.data[j], k1, k0];
  }

  /**
   Evicting the node that an earlier Set of a key left behind drops the live key from the map:
   any keys k, k, j, i of eight bytes each at capacity 24. The newer node of k stays in the list,
   unreachable.
   */
  method StaleNodeTakesLiveKey(k: string, j: string, i: string) returns (c: BuildInMapCache)
    requires k != j && k != i && j != i
    ensures fresh(c) && c.Valid() && c.capacity == 24
    ensures c.data.Keys == {i, j} && |c.list| == 3 && c.list[2].key == k && c.list[2].value == 1
  {
    hide Linked, Evict, Wrap, KeysOf, LongestFit, Room, Resets, Sizes;
    c := SetThree(k, j);
    ghost var j0, k1, k0 := c.list[0], c.list[1], c.list[2];
    assert j0 in c.list && k1 in c.list && k0 in c.list;
    assert c.list == [j0, k1, k0];
    SizesOfThree(j0, k1, k0);
    var ok := c.Set(i, 3, None, 8);
    TwoFit(j0, k1, k0, |c.list| - 1);
    assert [j0, k1, k0][2..] == [k0];
    OneKey(k0);
  }

  lemma AllFit(list: seq<Item>, m: nat, capacity: nat, need: nat)
    requires LongestFit(list, m, capacity, need) && Sizes(list) + need <= capacity
    ensures m == |list|
  {
    hide Sizes;
    assert list[..|list|] == list;
  }

  lemma TwoFit(a: Item, b: Item, c: Item, m: nat)
    requires a.size == b.size == c.size == 8 && LongestFit([a, b, c], m, 24, 8)
    ensures m == 2
  {
    SizesOfThree(a, b, c);
    SizesOfThree(a, a, b);
    hide Sizes;
    assert [a, b, c][..3] == [a, b, c] && [a, b, c][..2] == [a, b];
  }

  lemma NoKeys()
    ensures KeysOf([]) == {}
  {
  }

  lemma OneKey(x: Item)
    ensures KeysOf([x]) == {x.key}
  {
  }

  /** The list with its i-th node moved to the front. */
  function Moved(list: seq<Item>, i: nat): seq<Item>
    requires i < |list|
  {
    [list[i]] + (list[..i] + list[i + 1..])
  }

  lemma MovedSame(list: seq<Item>, i: nat)
    requires i < |list|
    ensures Sizes(Moved(list, i)) == Sizes(list) && multiset(Moved(list, i)) == multiset(list)
    ensures forall x :: x in list <==> x in Moved(list, i)
  {
    hide Sizes;
    SizesMoved(list, i);
    MovedMultiset(list, i);
    hide Moved;
    SameMultisetSameMembers(list, Moved(list, i));
  }

  lemma MovedMultiset(list: seq<Item>, i: nat)
    requires i < |list|
    ensures multiset(Moved(list, i)) == multiset(list)
  {
    assert list == list[..i] + [list[i]] + list[i + 1..];
  }

  lemma SameMultisetSameMembers(a: seq<Item>, b: seq<Item>)
    requires multiset(a) == multiset(b)
    ensures forall x :: x in a <==> x in b
  {
    forall x ensures x in a <==> x in b {
      assert x in a <==> x in multiset(a);
      assert x in b <==> x in multiset(b);
    }
  }

  /** What setting a present key makes of the list: its old node moved to the front, a new one before it. */
  ghost predicate Resets(before: seq<Item>, after: seq<Item>, node: Item, stored: Item) {
    exists i :: 0 <= i < |before| && before[i] == node && after == [stored] + Moved(before, i)
  }

  lemma ResetsAt(before: seq<Item>, i: nat, stored: Item)
    requires i < |before|
    ensures Resets(before, [stored] + Moved(before, i), before[i], stored)
  {
  }

  lemma SizeOfStored(list: seq<Item>)
    requires list != []
    ensures Sizes(list) == list[0].size + Sizes(list[1..])
  {
    hide Sizes;
    SizesConcat([list[0]], list[1..]);
    OneSize(list[0]);
    assert list == [list[0]] + list[1..];
  }

  lemma WholeOrPrefix(list: seq<Item>, m: nat)
    requires m <= |list|
    ensures list[..m] == list <==> m == |list|
    ensures forall k: nat :: k <= |list| && list[..k] == list[..m] ==> k == m
  {
    forall k: nat | k <= |list| && list[..k] == list[..m] ensures k == m { assert |list[..k]| == k; }
  }

  lemma SizesMoved(list: seq<Item>, i: nat)
    requires i < |list|
    ensures Sizes([list[i]] + (list[..i] + list[i + 1..])) == Sizes(list)
  {
    hide Sizes;
    SizesConcat([list[i]], list[..i] + list[i + 1..]);
    SizesConcat(list[..i], list[i + 1..]);
    SizesConcat(list[..i], [list[i]]);
    SizesConcat(list[..i] + [list[i]], list[i + 1..]);
    assert list == list[..i] + [list[i]] + list[i + 1..];
  }

  /** One step of the eviction loop, on the bookkeeping. */
  lemma EvictStep(all: seq<Item>, n: nat, margin: nat, need: nat)
    requires 0 < n <= |all| && margin < need
    ensures Evict(all[..n], margin, need) == Evict(all[..n - 1], Wrap(margin + all[n - 1].size), need)
    ensures Sizes(all[..n]) == Sizes(all[..n - 1]) + all[n - 1].size
    ensures KeysOf(all[n - 1..]) == KeysOf(all[n..]) + {all[n - 1].key}
  {
    assert all[..n][..n - 1] == all[..n - 1];
    assert all[n - 1..] == [all[n - 1]] + all[n..];
  }

  lemma EvictStops(list: seq<Item>, margin: nat, need: nat)
    requires margin >= need
    ensures Evict(list, margin, need) == Some(list)
  {
  }

  lemma EvictEnds(margin: nat, need: nat)
    requires margin < need
    ensures Evict([], margin, need) == None
  {
  }

  lemma NoKeysOfNone(data: map<string, Item>)
    ensures data - KeysOf([]) == data
  {
  }

  lemma OneSize(node: Item)
    ensures Sizes([node]) == node.size
  {
    assert [node][..0] == [];
  }

  lemma ResetsOne(node: Item, after: seq<Item>, stored: Item)
    requires Resets([node], after, node, stored)
    ensures after == [stored, node]
  {
    assert Moved([node], 0) == [node];
  }

  lemma SizesOfThree(a: Item, b: Item, c: Item)
    ensures Sizes([a, b, c]) == a.size + b.size + c.size && Sizes([b, c]) == b.size + c.size
  {
    SizeOfStored([a, b, c]);
    SizeOfStored([b, c]);
    OneSize(c);
    assert [a, b, c][1..] == [b, c] && [b, c][1..] == [c];
  }
}
