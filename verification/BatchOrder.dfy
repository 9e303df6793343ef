/** A pipelined batch of SETs regrouped by shard with counting offsets: the same final store as in the
    original order. */
module BatchOrder {
  import opened Words

  type Key = seq<byte>

  datatype Item = Item(key: Key, value: seq<byte>, shard: nat)

  /** The items of one shard, in order. */
  function Of(items: seq<Item>, s: nat): seq<Item>
  {
    if items == [] then []
    else Of(items[..|items| - 1], s) + if items[|items| - 1].shard == s then [items[|items| - 1]] else []
  }

  /** The items of the first `n` shards, shard by shard, each in its original order. */
  function Grouped(items: seq<Item>, n: nat): seq<Item>
  {
    if n == 0 then [] else Grouped(items, n - 1) + Of(items, n - 1)
  }

  lemma OfNext(items: seq<Item>, s: nat, i: nat)
    requires i < |items|
    ensures Of(items[..i + 1], s) == Of(items[..i], s) + if items[i].shard == s then [items[i]] else []
  {
    assert items[..i + 1][..i] == items[..i];
  }

  lemma {:induction false} OfPrefix(items: seq<Item>, s: nat, i: nat)
    requires i <= |items|
    ensures Of(items[..i], s) <= Of(items, s)
    decreases |items| - i
  {
    if i == |items| {
      assert items[..i] == items;
    } else {
      OfNext(items, s, i);
      OfPrefix(items, s, i + 1);
    }
  }

  // ---- the counting offsets ----

  ghost predicate InRange(items: seq<Item>, n: nat)
  {
    forall i :: 0 <= i < |items| ==> items[i].shard < n
  }

  method CountShards(items: seq<Item>, n: nat) returns (counts: array<nat>)
    requires InRange(items, n)
    ensures fresh(counts) && counts.Length == n && forall s :: 0 <= s < n ==> counts[s] == |Of(items, s)|
  {
    counts := new nat[n](_ => 0);
    for i := 0 to |items|
      invariant forall s :: 0 <= s < n ==> counts[s] == |Of(items[..i], s)|
    {
      forall s | 0 <= s < n
        ensures |Of(items[..i + 1], s)| == |Of(items[..i], s)| + if items[i].shard == s then 1 else 0
      {
        OfNext(items, s, i);
      }
      counts[items[i].shard] := counts[items[i].shard] + 1;
    }
    assert items[..|items|] == items;
  }

  /** Each shard's items start where the earlier shards' items end. */
  method Offsets(counts: array<nat>, ghost items: seq<Item>) returns (offsets: array<nat>)
    requires forall s :: 0 <= s < counts.Length ==> counts[s] == |Of(items, s)|
    ensures fresh(offsets) && offsets.Length == counts.Length + 1
    ensures forall s :: 0 <= s <= counts.Length ==> offsets[s] == |Grouped(items, s)|
  {
    hide Of, Grouped;
    offsets := new nat[counts.Length + 1](_ => 0);
    GroupedNext(items, 0);
    for i := 0 to counts.Length
      invariant forall s :: 0 <= s <= i ==> offsets[s] == |Grouped(items, s)|
    {
      GroupedNext(items, i);
      offsets[i + 1] := offsets[i] + counts[i];
    }
  }

  lemma GroupedNext(items: seq<Item>, n: nat)
    ensures |Grouped(items, n + 1)| == |Grouped(items, n)| + |Of(items, n)| && |Grouped(items, 0)| == 0
  {
  }

  lemma {:induction false} GroupedSteps(items: seq<Item>, s: nat, t: nat)
    requires s < t
    ensures |Grouped(items, s)| + |Of(items, s)| <= |Grouped(items, t)|
    decreases t
  {
    if s < t - 1 { GroupedSteps(items, s, t - 1); }
  }

  lemma {:induction false} GroupedSize(items: seq<Item>, n: nat)
    requires InRange(items, n)
    ensures |Grouped(items, n)| == |items|
  {
    if items == [] {
      GroupedNone(n);
    } else {
      var k := |items| - 1;
      GroupedSize(items[..k], n);
      GroupedSnoc(items, n);
    }
  }

  lemma {:induction false} GroupedNone(n: nat)
    ensures Grouped([], n) == []
  {
    if n > 0 { GroupedNone(n - 1); }
  }

  lemma {:induction false} GroupedSnoc(items: seq<Item>, n: nat)
    requires items != []
    ensures |Grouped(items, n)| == |Grouped(items[..|items| - 1], n)| + if items[|items| - 1].shard < n then 1 else 0
  {
    if n > 0 { GroupedSnoc(items, n - 1); }
  }

  /** Where the items of shard `s` go, once `done` of the batch is placed. */
  ghost predicate Placed(ordered: seq<Item>, items: seq<Item>, done: nat, s: nat)
    requires done <= |items|
  {
    var start, some := |Grouped(items, s)|, Of(items[..done], s);
    start + |some| <= |ordered| && ordered[start..start + |some|] == some
  }

  ghost predicate AllPlaced(ordered: seq<Item>, items: seq<Item>, done: nat, n: nat)
    requires done <= |items|
  {
    forall s {:trigger Placed(ordered, items, done, s)} :: 0 <= s < n ==> Placed(ordered, items, done, s)
  }

  lemma PlaceStep(ordered: seq<Item>, items: seq<Item>, i: nat, n: nat, pos: nat)
    requires i < |items| && InRange(items, n) && |ordered| == |items|
    requires AllPlaced(ordered, items, i, n)
    requires pos == |Grouped(items, items[i].shard)| + |Of(items[..i], items[i].shard)|
    ensures pos < |ordered| && AllPlaced(ordered[pos := items[i]], items, i + 1, n)
  {
    hide Of, Grouped;
    var t := items[i].shard;
    GroupedSize(items, n);
    GroupedSteps(items, t, n);
    OfNext(items, t, i);
    OfPrefix(items, t, i + 1);
    var out, done := ordered[pos := items[i]], i + 1;
    forall s | 0 <= s < n
      ensures Placed(out, items, done, s)
    {
      assert Placed(ordered, items, i, s);
      OfNext(items, s, i);
      OfPrefix(items, s, i);
      if s < t { GroupedSteps(items, s, t); }
      if t < s { GroupedSteps(items, t, s); }
      PlaceOther(ordered, items, i, s, t, pos);
    }
  }

  lemma PlaceOther(ordered: seq<Item>, items: seq<Item>, i: nat, s: nat, t: nat, pos: nat)
    requires i < |items| && pos < |ordered| && t == items[i].shard && Placed(ordered, items, i, s)
    requires Of(items[..i + 1], s) == Of(items[..i], s) + if t == s then [items[i]] else []
    requires pos == |Grouped(items, t)| + |Of(items[..i], t)|
    requires s < t ==> |Grouped(items, s)| + |Of(items[..i], s)| <= |Grouped(items, t)|
    requires t < s ==> pos < |Grouped(items, s)|
    ensures Placed(ordered[pos := items[i]], items, i + 1, s)
  {
    hide Of, Grouped;
    var start, some := |Grouped(items, s)|, Of(items[..i], s);
    var o := ordered[pos := items[i]];
    assert o[start..start + |some|] == ordered[start..start + |some|];
    if t == s { assert o[start..start + |some| + 1] == o[start..start + |some|] + [o[start + |some|]]; }
  }

  /** Stable regrouping by shard. */
  method Regroup(items: seq<Item>, n: nat) returns (ordered: seq<Item>, counts: array<nat>, offsets: array<nat>)
    requires InRange(items, n)
    ensures ordered == Grouped(items, n) && counts.Length == n && offsets.Length == n + 1
    ensures forall s :: 0 <= s < n ==> counts[s] == |Of(items, s)| && offsets[s] == |Grouped(items, s)|
  {
    hide Of, Grouped, AllPlaced;
    counts := CountShards(items, n);
    offsets := Offsets(counts, items);
    var next := new nat[n](s requires 0 <= s < n reads offsets => offsets[s]);
    var out := items;
    assert items[..0] == [];
    PlacedNone(out, items, n);
    for i := 0 to |items|
      invariant |out| == |items|
      invariant forall s :: 0 <= s < n ==> next[s] == |Grouped(items, s)| + |Of(items[..i], s)|
      invariant AllPlaced(out, items, i, n)
      modifies next
    {
      var shard := items[i].shard;
      var pos := next[shard];
      PlaceStep(out, items, i, n, pos);
      forall s | 0 <= s < n
        ensures |Of(items[..i + 1], s)| == |Of(items[..i], s)| + if shard == s then 1 else 0
      {
        OfNext(items, s, i);
      }
      next[shard] := pos + 1;
      out := out[pos := items[i]];
    }
    assert items[..|items|] == items;
    GroupedSize(items, n);
    Collected(out, items, n, n);
    ordered := out;
    assert out[..|out|] == out;
  }

  lemma PlacedNone(ordered: seq<Item>, items: seq<Item>, n: nat)
    requires InRange(items, n) && |ordered| == |items|
    ensures AllPlaced(ordered, items, 0, n) && forall s :: 0 <= s < n ==> |Of(items[..0], s)| == 0
  {
    assert items[..0] == [];
    forall s | 0 <= s < n
      ensures Placed(ordered, items, 0, s) && |Of(items[..0], s)| == 0
    {
      GroupedSize(items, n);
      GroupedSteps(items, s, n);
    }
  }

  lemma {:induction false} Collected(ordered: seq<Item>, items: seq<Item>, n: nat, m: nat)
    requires m <= n && |Grouped(items, m)| <= |ordered|
    requires AllPlaced(ordered, items, |items|, n)
    ensures ordered[..|Grouped(items, m)|] == Grouped(items, m)
    decreases m
  {
    if m > 0 {
      var k := m - 1;
      Collected(ordered, items, n, k);
      assert Placed(ordered, items, |items|, k);
      assert items[..|items|] == items;
      var a, b := |Grouped(items, k)|, |Grouped(items, m)|;
      assert ordered[..b] == ordered[..a] + ordered[a..b];
    }
  }

  // ---- the same final store ----

  function Apply(store: map<Key, seq<byte>>, items: seq<Item>): map<Key, seq<byte>>
  {
    if items == [] then store
    else Apply(store, items[..|items| - 1])[items[|items| - 1].key := items[|items| - 1].value]
  }

  /** The writes to one key, in order. */
  function To(items: seq<Item>, key: Key): seq<Item>
  {
    if items == [] then []
    else To(items[..|items| - 1], key) + if items[|items| - 1].key == key then [items[|items| - 1]] else []
  }

  /** What a key ends up with depends on the writes to that key only. */
  lemma {:induction false} ApplyKey(store: map<Key, seq<byte>>, items: seq<Item>, key: Key)
    ensures var w := To(items, key);
      if w == [] then
        (key in Apply(store, items) <==> key in store) && (key in store ==> Apply(store, items)[key] == store[key])
      else key in Apply(store, items) && Apply(store, items)[key] == w[|w| - 1].value
  {
    if items != [] { ApplyKey(store, items[..|items| - 1], key); }
  }

  lemma {:induction false} ToAppend(a: seq<Item>, b: seq<Item>, key: Key)
    ensures To(a + b, key) == To(a, key) + To(b, key)
    decreases |b|
  {
    if b == [] {
      assert a + b == a;
    } else {
      var n := |b| - 1;
      assert (a + b)[..|a| + n] == a + b[..n];
      ToAppend(a, b[..n], key);
    }
  }

  lemma {:induction false} ToOf(items: seq<Item>, shardOf: Key -> nat, s: nat, key: Key)
    requires forall i :: 0 <= i < |items| ==> items[i].shard == shardOf(items[i].key)
    ensures To(Of(items, s), key) == if shardOf(key) == s then To(items, key) else []
  {
    if items != [] {
      var n := |items| - 1;
      ToOf(items[..n], shardOf, s, key);
      var last := if items[n].shard == s then [items[n]] else [];
      ToAppend(Of(items[..n], s), last, key);
      if items[n].shard == s { ToOne(items[n], key); }
    }
  }

  lemma ToNone(key: Key)
    ensures To([], key) == []
  {
  }

  lemma ToOne(x: Item, key: Key)
    ensures To([x], key) == if x.key == key then [x] else []
  {
    assert [x][..0] == [];
  }

  lemma {:induction false} ToGrouped(items: seq<Item>, shardOf: Key -> nat, n: nat, key: Key)
    requires forall i :: 0 <= i < |items| ==> items[i].shard == shardOf(items[i].key)
    ensures To(Grouped(items, n), key) == if shardOf(key) < n then To(items, key) else []
    decreases n
  {
    hide To, Of;
    if n == 0 {
      ToNone(key);
    } else {
      ToGrouped(items, shardOf, n - 1, key);
      ToOf(items, shardOf, n - 1, key);
      ToAppend(Grouped(items, n - 1), Of(items, n - 1), key);
    }
  }

  lemma {:induction false} ToUnnamed(items: seq<Item>, key: Key)
    requires forall i :: 0 <= i < |items| ==> items[i].key != key
    ensures To(items, key) == []
  {
    if items != [] { ToUnnamed(items[..|items| - 1], key); }
  }

  /** Applying the batch shard by shard leaves the store that the original order leaves. */
  lemma GroupedStore(store: map<Key, seq<byte>>, items: seq<Item>, shardOf: Key -> nat, n: nat)
    requires InRange(items, n) && forall i :: 0 <= i < |items| ==> items[i].shard == shardOf(items[i].key)
    ensures Apply(store, Grouped(items, n)) == Apply(store, items)
  {
    hide Apply, Grouped, To;
    var a, b := Apply(store, Grouped(items, n)), Apply(store, items);
    forall k: Key
      ensures (k in a <==> k in b) && (k in a && k in b ==> a[k] == b[k])
    {
      ToGrouped(items, shardOf, n, k);
      if shardOf(k) >= n {
        ToUnnamed(items, k);
      }
      ApplyKey(store, Grouped(items, n), k);
      ApplyKey(store, items, k);
    }
  }

  /** The items regrouped are a permutation of the batch. */
  lemma {:induction false} GroupedPermutes(items: seq<Item>, n: nat)
    requires InRange(items, n)
    ensures multiset(Grouped(items, n)) == multiset(items)
  {
    hide Grouped;
    if items == [] {
      GroupedNone(n);
    } else {
      var k := |items| - 1;
      GroupedPermutes(items[..k], n);
      GroupedAdds(items, n);
      assert items == items[..k] + [items[k]];
    }
  }

  function One(x: Item, here: bool): multiset<Item>
  {
    if here then multiset{x} else multiset{}
  }

  lemma OfAdds(items: seq<Item>, s: nat)
    requires items != []
    ensures var k := |items| - 1;
      multiset(Of(items, s)) == multiset(Of(items[..k], s)) + One(items[k], items[k].shard == s)
  {
  }

  lemma {:induction false} GroupedAdds(items: seq<Item>, n: nat)
    requires items != []
    ensures var k := |items| - 1;
      multiset(Grouped(items, n)) == multiset(Grouped(items[..k], n)) + One(items[k], items[k].shard < n)
  {
    hide Of, One;
    var k := |items| - 1;
    var x := items[k];
    if n == 0 {
      OneSplit(x, 0);
    } else {
      GroupedAdds(items, n - 1);
      OfAdds(items, n - 1);
      OneSplit(x, n - 1);
      Mix(Grouped(items, n - 1), Of(items, n - 1), Grouped(items[..k], n - 1), Of(items[..k], n - 1),
          One(x, x.shard < n - 1), One(x, x.shard == n - 1));
    }
  }

  lemma OneSplit(x: Item, n: nat)
    ensures One(x, x.shard < n) + One(x, x.shard == n) == One(x, x.shard < n + 1) && One(x, x.shard < 0) == multiset{}
  {
  }

  lemma Mix(a: seq<Item>, b: seq<Item>, c: seq<Item>, d: seq<Item>, p: multiset<Item>, q: multiset<Item>)
    requires multiset(a) == multiset(c) + p && multiset(b) == multiset(d) + q
    ensures multiset(a + b) == multiset(c + d) + (p + q)
  {
  }

  /** The shard-local batch: regroup, then apply each shard's run of items. */
  method ApplyByShard(store: map<Key, seq<byte>>, items: seq<Item>, ghost shardOf: Key -> nat, n: nat)
    returns (r: map<Key, seq<byte>>)
    requires InRange(items, n) && forall i :: 0 <= i < |items| ==> items[i].shard == shardOf(items[i].key)
    ensures r == Apply(store, items)
  {
    hide Of, Grouped, Apply;
    var ordered, counts, offsets := Regroup(items, n);
    r := store;
    assert ordered[..0] == [];
    ApplyNone(store);
    GroupedNext(items, 0);
    GroupedSize(items, n);
    for s := 0 to n
      invariant |Grouped(items, s)| <= |ordered| && r == Apply(store, ordered[..|Grouped(items, s)|])
      modifies {}
    {
      GroupedNext(items, s);
      GroupedSteps(items, s, n);
      var start, end := offsets[s], offsets[s] + counts[s];
      for i := start to end
        invariant i <= |ordered| && r == Apply(store, ordered[..i])
        modifies {}
      {
        ApplyNext(store, ordered, i);
        r := r[ordered[i].key := ordered[i].value];
      }
    }
    assert ordered[..|ordered|] == ordered;
    GroupedStore(store, items, shardOf, n);
  }

  lemma ApplyNone(store: map<Key, seq<byte>>)
    ensures Apply(store, []) == store
  {
  }

  lemma ApplyNext(store: map<Key, seq<byte>>, items: seq<Item>, i: nat)
    requires i < |items|
    ensures Apply(store, items[..i + 1]) == Apply(store, items[..i])[items[i].key := items[i].value]
  {
    assert items[..i + 1][..i] == items[..i];
  }
}
