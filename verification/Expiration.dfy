/** The expiration queue of a shard: a binary heap of deadlines with a map from each key to its place. */
module Expiration {
  import opened Words

  type Key = seq<byte>

  datatype Item = Item(key: Key, at: int)

  function Par(i: nat): nat
  {
    if i == 0 then 0 else (i - 1) / 2
  }

  // ---- heap order with one place left out ----

  predicate Edge(items: seq<Item>, j: nat)
    requires j < |items|
  {
    items[Par(j)].at <= items[j].at
  }

  /** Parents are due no later than their children, for every edge that does not touch place `skip`. */
  ghost predicate Ordered(items: seq<Item>, n: nat, skip: nat)
    requires n <= |items|
  {
    forall j {:trigger Edge(items, j)} :: 0 < j < n && j != skip && Par(j) != skip ==> Edge(items, j)
  }

  /** The parent of place `skip` is due no later than the children of `skip`. */
  ghost predicate Bridge(items: seq<Item>, n: nat, skip: nat)
    requires n <= |items| && skip <= n
  {
    skip > 0 ==> forall j {:trigger Par(j)} :: 0 < j < n && Par(j) == skip ==> items[Par(skip)].at <= items[j].at
  }

  /** Place `s` is due no later than its children. */
  ghost predicate AboveChildren(items: seq<Item>, n: nat, s: nat)
    requires n <= |items| && s < |items|
  {
    forall j {:trigger Edge(items, j)} :: 0 < j < n && Par(j) == s ==> Edge(items, j)
  }

  ghost predicate Heap(items: seq<Item>)
  {
    forall j {:trigger Edge(items, j)} :: 0 < j < |items| ==> Edge(items, j)
  }

  ghost predicate HeapUpTo(items: seq<Item>, n: nat)
    requires n <= |items|
  {
    forall j {:trigger Edge(items, j)} :: 0 < j < n ==> Edge(items, j)
  }

  lemma Restored(items: seq<Item>, n: nat, s: nat)
    requires s < n <= |items| && Ordered(items, n, s) && AboveChildren(items, n, s) && (s > 0 ==> Edge(items, s))
    ensures HeapUpTo(items, n)
  {
    forall j | 0 < j < n ensures Edge(items, j) { }
  }

  /** The root is due first. */
  lemma {:induction false} RootFirst(items: seq<Item>, j: nat)
    requires Heap(items) && j < |items|
    ensures items[0].at <= items[j].at
  {
    if j > 0 {
      assert Edge(items, j);
      RootFirst(items, Par(j));
    }
  }

  function Swapped(items: seq<Item>, i: nat, j: nat): (r: seq<Item>)
    requires i < |items| && j < |items|
    ensures |r| == |items|
  {
    items[i := items[j]][j := items[i]]
  }

  /** Lifting a place over its parent moves the gap up. */
  lemma LiftStep(items: seq<Item>, n: nat, j: nat)
    requires 0 < j < n <= |items| && Ordered(items, n, j) && Bridge(items, n, j) && AboveChildren(items, n, j)
    requires items[j].at < items[Par(j)].at
    ensures var t, i := Swapped(items, Par(j), j), Par(j);
      Ordered(t, n, i) && Bridge(t, n, i) && AboveChildren(t, n, i)
  {
    var i := Par(j);
    var t := Swapped(items, i, j);
    if i > 0 { assert Edge(items, i); }
    forall k | 0 < k < n && k != i && Par(k) != i
      ensures Edge(t, k)
    {
      if Par(k) != j { assert Edge(items, k); }
    }
    forall k | 0 < k < n && Par(k) == i
      ensures Edge(t, k) && (i > 0 ==> t[Par(i)].at <= t[k].at)
    {
      if k != j { assert Edge(items, k); }
    }
  }

  /** The child that is due first. */
  function LeastChild(items: seq<Item>, n: nat, i: nat): (c: nat)
    requires 2 * i + 1 < n <= |items|
    ensures i < c < n && Par(c) == i
    ensures forall k :: 0 < k < n && Par(k) == i ==> items[c].at <= items[k].at
  {
    if 2 * i + 2 < n && items[2 * i + 2].at < items[2 * i + 1].at then 2 * i + 2 else 2 * i + 1
  }

  /** Sinking a place under its least child moves the gap down. */
  lemma SinkStep(items: seq<Item>, n: nat, i: nat)
    requires 2 * i + 1 < n <= |items| && Ordered(items, n, i) && Bridge(items, n, i)
    requires items[LeastChild(items, n, i)].at < items[i].at
    ensures var c := LeastChild(items, n, i); var t := Swapped(items, i, c);
      Ordered(t, n, c) && Bridge(t, n, c) && Edge(t, c)
  {
    var c := LeastChild(items, n, i);
    var t := Swapped(items, i, c);
    forall k | 0 < k < n && k != c && Par(k) != c
      ensures Edge(t, k)
    {
      if k != i && Par(k) != i { assert Edge(items, k); }
    }
    forall k | 0 < k < n && Par(k) == c
      ensures t[Par(c)].at <= t[k].at
    {
      assert Edge(items, k);
    }
  }

  lemma SinkEnd(items: seq<Item>, n: nat, i: nat)
    requires i < n <= |items| && (2 * i + 1 < n ==> items[i].at <= items[LeastChild(items, n, i)].at)
    ensures AboveChildren(items, n, i)
  {
    forall k | 0 < k < n && Par(k) == i ensures Edge(items, k) { }
  }

  // ---- places ----

  /** The positions map is the exact inverse of the item list. */
  ghost predicate Inverse(items: seq<Item>, positions: map<Key, nat>)
  {
    && (forall i :: 0 <= i < |items| ==> items[i].key in positions && positions[items[i].key] == i)
    && (forall k :: k in positions ==> positions[k] < |items| && items[positions[k]].key == k)
  }

  /** The deadline of each key. */
  ghost function DeadlinesOf(items: seq<Item>, positions: map<Key, nat>): map<Key, int>
    requires Inverse(items, positions)
  {
    map k | k in positions :: items[positions[k]].at
  }

  lemma SwapKeeps(items: seq<Item>, positions: map<Key, nat>, i: nat, j: nat)
    requires Inverse(items, positions) && i < |items| && j < |items|
    ensures var t := Swapped(items, i, j); var p := positions[t[i].key := i][t[j].key := j];
      Inverse(t, p) && DeadlinesOf(t, p) == DeadlinesOf(items, positions)
  {
    var t := Swapped(items, i, j);
    var p := positions[t[i].key := i][t[j].key := j];
    forall k | k in p
      ensures p[k] < |t| && t[p[k]].key == k && k in positions && t[p[k]].at == items[positions[k]].at
    {
    }
  }

  lemma AppendKeeps(items: seq<Item>, positions: map<Key, nat>, x: Item)
    requires Inverse(items, positions) && x.key !in positions
    ensures var t, p := items + [x], positions[x.key := |items|];
      Inverse(t, p) && DeadlinesOf(t, p) == DeadlinesOf(items, positions)[x.key := x.at]
  {
    var t, p := items + [x], positions[x.key := |items|];
    forall i | 0 <= i < |t| ensures t[i].key in p && p[t[i].key] == i {
      if i < |items| { assert items[i].key in positions; }
    }
  }

  lemma DropKeeps(items: seq<Item>, positions: map<Key, nat>)
    requires Inverse(items, positions) && items != []
    ensures var n := |items| - 1; var t, p := items[..n], positions - {items[n].key};
      Inverse(t, p) && DeadlinesOf(t, p) == DeadlinesOf(items, positions) - {items[n].key}
  {
    var n := |items| - 1;
    var t, p := items[..n], positions - {items[n].key};
    forall i | 0 <= i < |t| ensures t[i].key in p && p[t[i].key] == i {
      assert items[i].key in positions;
    }
  }

  lemma RetimeKeeps(items: seq<Item>, positions: map<Key, nat>, i: nat, at: int)
    requires Inverse(items, positions) && i < |items|
    ensures var t := items[i := items[i].(at := at)];
      Inverse(t, positions) && DeadlinesOf(t, positions) == DeadlinesOf(items, positions)[items[i].key := at]
  {
  }

  class Queue {
    var items: seq<Item>
    var positions: map<Key, nat>

    ghost predicate Placed()
      reads this
    {
      Inverse(items, positions)
    }

    ghost predicate Valid()
      reads this
    {
      Placed() && Heap(items)
    }

    ghost function Deadlines(): map<Key, int>
      reads this
      requires Placed()
    {
      DeadlinesOf(items, positions)
    }

    constructor ()
      ensures Valid() && Deadlines() == map[]
    {
      items, positions := [], map[];
    }

    method Swap(i: nat, j: nat)
      requires Placed() && i < |items| && j < |items|
      modifies this
      ensures Placed() && items == Swapped(old(items), i, j) && Deadlines() == old(Deadlines())
    {
      hide Inverse, DeadlinesOf;
      SwapKeeps(items, positions, i, j);
      items := items[i := items[j]][j := items[i]];
      positions := positions[items[i].key := i][items[j].key := j];
    }

    /** Moves the item at `start` up to its place. */
    method Up(start: nat, ghost n: nat)
      requires Placed() && start < n <= |items|
      requires Ordered(items, n, start) && Bridge(items, n, start) && AboveChildren(items, n, start)
      modifies this
      ensures Placed() && Deadlines() == old(Deadlines()) && |items| == old(|items|)
      ensures HeapUpTo(items, n) && items[n..] == old(items[n..])
    {
      hide Inverse, DeadlinesOf, Ordered, Bridge, AboveChildren, HeapUpTo;
      var j: nat := start;
      while true
        invariant Placed() && Deadlines() == old(Deadlines()) && |items| == old(|items|) && j < n
        invariant Ordered(items, n, j) && Bridge(items, n, j) && AboveChildren(items, n, j)
        invariant items[n..] == old(items[n..])
        decreases j
      {
        var i := Par(j);
        if i == j || !(items[j].at < items[i].at) {
          Restored(items, n, j);
          return;
        }
        LiftStep(items, n, j);
        Swap(i, j);
        j := i;
      }
    }

    /** Moves the item at `start` down to its place among the first `n`; tells whether it moved. */
    method Down(start: nat, n: nat) returns (moved: bool)
      requires Placed() && start < n <= |items|
      requires Ordered(items, n, start) && Bridge(items, n, start)
      modifies this
      ensures Placed() && Deadlines() == old(Deadlines()) && |items| == old(|items|)
      ensures items[n..] == old(items[n..])
      ensures moved ==> HeapUpTo(items, n)
      ensures !moved ==> items == old(items) && AboveChildren(items, n, start)
    {
      hide Inverse, DeadlinesOf, Ordered, Bridge, AboveChildren, HeapUpTo;
      var i: nat := start;
      while true
        invariant Placed() && Deadlines() == old(Deadlines()) && |items| == old(|items|) && start <= i < n
        invariant Ordered(items, n, i) && Bridge(items, n, i)
        invariant items[n..] == old(items[n..])
        invariant i == start ==> items == old(items)
        invariant i > start ==> Edge(items, i)
        decreases n - i
      {
        if 2 * i + 1 >= n { break; }
        var j := LeastChild(items, n, i);
        if !(items[j].at < items[i].at) { break; }
        SinkStep(items, n, i);
        Swap(i, j);
        i := j;
      }
      SinkEnd(items, n, i);
      moved := i > start;
      if moved { Restored(items, n, i); }
    }

    /** Restores the order around a place whose deadline changed. */
    method Settle(i: nat, n: nat)
      requires Placed() && i < n <= |items| && Ordered(items, n, i) && Bridge(items, n, i)
      modifies this
      ensures Placed() && Deadlines() == old(Deadlines()) && |items| == old(|items|)
      ensures HeapUpTo(items, n) && items[n..] == old(items[n..])
    {
      hide Inverse, DeadlinesOf, Ordered, Bridge, AboveChildren, HeapUpTo;
      var moved := Down(i, n);
      if !moved { Up(i, n); }
    }

    method Push(x: Item)
      requires Valid() && x.key !in positions
      modifies this
      ensures Valid() && Deadlines() == old(Deadlines())[x.key := x.at]
    {
      hide Inverse, DeadlinesOf;
      AppendKeeps(items, positions, x);
      PushGap(items, x);
      positions := positions[x.key := |items|];
      items := items + [x];
      Up(|items| - 1, |items|);
    }

    /** Takes the item at a place out. */
    method RemoveAt(i: nat)
      requires Valid() && i < |items|
      modifies this
      ensures Valid() && Deadlines() == old(Deadlines()) - {old(items[i].key)}
    {
      hide Inverse, DeadlinesOf;
      var n := |items| - 1;
      ghost var gone := items[i];
      RemoveGap(items, i);
      if n != i {
        Swap(i, n);
        Settle(i, n);
      }
      assert items[n..] == [gone];
      DropKeeps(items, positions);
      TakeHeap(items, n);
      positions := positions - {items[n].key};
      items := items[..n];
    }

    /** Sets, changes or, with no deadline, takes away the deadline of a key. */
    method Schedule(key: Key, at: int)
      requires Valid()
      modifies this
      ensures Valid()
      ensures Deadlines() == if at == 0 then old(Deadlines()) - {key} else old(Deadlines())[key := at]
    {
      hide DeadlinesOf, Heap;
      PlacesOf(items, positions);
      if at == 0 {
        if key in positions { RemoveAt(positions[key]); }
        return;
      }
      if key !in positions {
        Push(Item(key, at));
        return;
      }
      var i := positions[key];
      if items[i].at == at { return; }
      RetimeKeeps(items, positions, i, at);
      RetimeGap(items, i, at);
      items := items[i := items[i].(at := at)];
      Settle(i, |items|);
      WholeHeap(items);
    }

    /** The deadline last set for a key. */
    method AtFor(key: Key) returns (at: Option<int>)
      requires Valid()
      ensures at == if key in Deadlines() then Some(Deadlines()[key]) else None
    {
      if key !in positions { return None; }
      var i := positions[key];
      if i >= |items| || items[i].key != key { return None; }
      return Some(items[i].at);
    }
  }

  lemma PlacesOf(items: seq<Item>, positions: map<Key, nat>)
    requires Inverse(items, positions)
    ensures DeadlinesOf(items, positions).Keys == positions.Keys
    ensures forall k :: k in positions ==> DeadlinesOf(items, positions)[k] == items[positions[k]].at
  {
  }

  lemma PushGap(items: seq<Item>, x: Item)
    requires Heap(items)
    ensures var t, n := items + [x], |items| + 1;
      Ordered(t, n, n - 1) && Bridge(t, n, n - 1) && AboveChildren(t, n, n - 1)
  {
    var t, n := items + [x], |items| + 1;
    forall j | 0 < j < n && j != n - 1 ensures Edge(t, j) { assert Edge(items, j); }
  }

  lemma RetimeGap(items: seq<Item>, i: nat, at: int)
    requires Heap(items) && i < |items|
    ensures var t := items[i := items[i].(at := at)];
      Ordered(t, |t|, i) && Bridge(t, |t|, i)
  {
    var t := items[i := items[i].(at := at)];
    forall j | 0 < j < |t| && j != i && Par(j) != i ensures Edge(t, j) { assert Edge(items, j); }
    forall j | 0 < j < |t| && Par(j) == i && i > 0
      ensures t[Par(i)].at <= t[j].at
    {
      assert Edge(items, j) && Edge(items, i);
    }
  }

  lemma RemoveGap(items: seq<Item>, i: nat)
    requires Heap(items) && i < |items|
    ensures var n := |items| - 1; var t := Swapped(items, i, n);
      i < n ==> Ordered(t, n, i) && Bridge(t, n, i)
    ensures HeapUpTo(items, |items| - 1)
  {
    var n := |items| - 1;
    var t := Swapped(items, i, n);
    forall j | 0 < j < n ensures Edge(items, j) { }
    if i < n {
      forall j | 0 < j < n && j != i && Par(j) != i ensures Edge(t, j) { assert Edge(items, j); }
      forall j | 0 < j < n && Par(j) == i && i > 0
        ensures t[Par(i)].at <= t[j].at
      {
        assert Edge(items, j) && Edge(items, i);
      }
    }
  }

  lemma TakeHeap(items: seq<Item>, n: nat)
    requires n <= |items| && HeapUpTo(items, n)
    ensures Heap(items[..n])
  {
    forall j | 0 < j < n ensures Edge(items[..n], j) { assert Edge(items, j); }
  }

  lemma WholeHeap(items: seq<Item>)
    requires HeapUpTo(items, |items|)
    ensures Heap(items)
  {
    forall j | 0 < j < |items| ensures Edge(items, j) { }
  }

  // ---- runs of schedule calls ----

  /** The deadlines after a run of schedule calls. */
  function Final(ops: seq<Item>): map<Key, int>
  {
    if ops == [] then map[]
    else
      var x := ops[|ops| - 1];
      if x.at == 0 then Final(ops[..|ops| - 1]) - {x.key} else Final(ops[..|ops| - 1])[x.key := x.at]
  }

  /** The deadline of a key is the one set last, and it has none when that was none. */
  lemma {:induction false} FinalIsLast(ops: seq<Item>, i: nat)
    requires i < |ops| && forall j :: i < j < |ops| ==> ops[j].key != ops[i].key
    ensures if ops[i].at == 0 then ops[i].key !in Final(ops)
      else ops[i].key in Final(ops) && Final(ops)[ops[i].key] == ops[i].at
    decreases |ops|
  {
    var n := |ops| - 1;
    if i < n { FinalIsLast(ops[..n], i); }
  }

  lemma {:induction false} FinalOnlyNamed(ops: seq<Item>, key: Key)
    requires forall i :: 0 <= i < |ops| ==> ops[i].key != key
    ensures key !in Final(ops)
  {
    if ops != [] { FinalOnlyNamed(ops[..|ops| - 1], key); }
  }

  /** After any run of schedule calls the heap and the places are in order, and the deadlines are the
      ones set last. */
  method Run(ops: seq<Item>) returns (q: Queue)
    ensures fresh(q) && q.Valid() && q.Deadlines() == Final(ops)
  {
    hide Inverse, Heap, DeadlinesOf;
    q := new Queue();
    assert ops[..0] == [];
    for i := 0 to |ops|
      invariant fresh(q) && q.Valid() && q.Deadlines() == Final(ops[..i])
    {
      assert ops[..i + 1][..i] == ops[..i];
      q.Schedule(ops[i].key, ops[i].at);
    }
    assert ops[..|ops|] == ops;
  }
}
