/** Bounded cleanup: due keys are removed shard by shard, earliest first, up to a limit. */
module ExpirationCleanup {
  import opened Words
  import opened Sums
  import opened Expiration

  /** The keys of a shard and their deadlines. */
  datatype State = State(data: map<Key, seq<byte>>, at: map<Key, int>)

  class Shard {
    var data: map<Key, seq<byte>>
    const queue: Queue

    ghost predicate Valid()
      reads this, queue
    {
      queue.Valid() && queue.Deadlines().Keys <= data.Keys
    }

    ghost function Deadlines(): map<Key, int>
      reads this, queue
      requires Valid()
    {
      queue.Deadlines()
    }

    ghost function Keys(): State
      reads this, queue
      requires Valid()
    {
      State(data, Deadlines())
    }

    constructor ()
      ensures Valid() && fresh(queue) && data == map[]
    {
      queue := new Queue();
      data := map[];
    }

    /** Stores a key with a deadline, zero for none. */
    method Put(key: Key, value: seq<byte>, at: int)
      requires Valid()
      modifies this, queue
      ensures Valid() && data == old(data)[key := value]
      ensures Deadlines() == if at == 0 then old(Deadlines()) - {key} else old(Deadlines())[key := at]
    {
      hide Queue.Valid, Queue.Deadlines;
      data := data[key := value];
      queue.Schedule(key, at);
    }

    method Remove(key: Key)
      requires Valid() && key in data
      modifies this, queue
      ensures Valid() && data == old(data) - {key} && Deadlines() == old(Deadlines()) - {key}
    {
      hide Queue.Valid, Queue.Deadlines;
      data := data - {key};
      queue.Schedule(key, 0);
    }

    /** The key due first. */
    method First() returns (x: Item)
      requires Valid() && |queue.items| > 0
      ensures x.key in Deadlines() && Deadlines()[x.key] == x.at
      ensures forall k :: k in Deadlines() ==> x.at <= Deadlines()[k]
    {
      x := queue.items[0];
      forall k | k in Deadlines() ensures x.at <= Deadlines()[k] {
        RootFirst(queue.items, queue.positions[k]);
      }
    }

    /** Removes due keys, earliest first, at most `limit` of them. */
    method Clean(limit: nat, now: int) returns (removed: nat)
      requires Valid()
      modifies this, queue
      ensures Valid() && removed <= limit
      ensures Cleaned(old(Keys()), Keys(), now)
      ensures removed == |old(Deadlines())| - |Deadlines()|
      ensures removed < limit ==> NothingDue(Keys(), now)
    {
      hide Queue.Valid, Queue.Deadlines, Cleaned;
      removed := 0;
      CleanedNone(Keys(), now);
      while removed < limit
        invariant Valid() && removed <= limit && removed == |old(Deadlines())| - |Deadlines()|
        invariant Cleaned(old(Keys()), Keys(), now)
        decreases limit - removed
      {
        SizeOf();
        if |queue.items| == 0 { return; }
        var next := First();
        if now < next.at { return; }
        CleanedNext(old(Keys()), Keys(), now, next.key);
        Remove(next.key);
        removed := removed + 1;
      }
    }

    lemma SizeOf()
      requires Valid()
      ensures |queue.items| == 0 <==> |Deadlines()| == 0
    {
      if |queue.items| > 0 { assert queue.items[0].key in Deadlines(); }
      if |Deadlines()| > 0 {
        var k :| k in Deadlines();
        assert queue.positions[k] < |queue.items|;
      }
    }
  }

  /** Some due keys, with their deadlines, are gone; each was due no later than any key that stays. */
  ghost predicate Cleaned(a: State, b: State, now: int)
  {
    var gone := a.at.Keys - b.at.Keys;
    && b.data == a.data - gone && b.at == a.at - gone
    && (forall k :: k in gone ==> a.at[k] <= now)
    && (forall k, j :: k in gone && j in b.at ==> a.at[k] <= a.at[j])
  }

  predicate NothingDue(s: State, now: int)
  {
    forall k :: k in s.at ==> now < s.at[k]
  }

  lemma CleanedNone(a: State, now: int)
    ensures Cleaned(a, a, now)
  {
  }

  lemma CleanedNext(a: State, b: State, now: int, key: Key)
    requires Cleaned(a, b, now) && key in b.at && b.at[key] <= now && forall k :: k in b.at ==> b.at[key] <= b.at[k]
    ensures Cleaned(a, State(b.data - {key}, b.at - {key}), now) && |b.at - {key}| == |b.at| - 1
  {
    var gone := a.at.Keys - b.at.Keys;
    var c := State(b.data - {key}, b.at - {key});
    GoneNext(a.at, b.at, key);
    assert c.data == a.data - (gone + {key});
  }

  lemma GoneNext(at: map<Key, int>, left: map<Key, int>, key: Key)
    requires left == at - (at.Keys - left.Keys) && key in left
    ensures var c := left - {key}; var gone := at.Keys - left.Keys;
      at.Keys - c.Keys == gone + {key} && c == at - (gone + {key}) && |c| == |left| - 1
  {
    var c := left - {key};
    assert left.Keys == c.Keys + {key};
    assert |left| == |left.Keys| && |c| == |c.Keys|;
  }

  // ---- all shards ----

  ghost predicate Apart(shards: seq<Shard>)
    reads shards
  {
    forall i, j :: 0 <= i < j < |shards| ==> shards[i] != shards[j] && shards[i].queue != shards[j].queue
  }

  ghost function Queues(shards: seq<Shard>): set<Queue>
    reads shards
  {
    set i | 0 <= i < |shards| :: shards[i].queue
  }

  ghost predicate AllValid(shards: seq<Shard>)
    reads shards, Queues(shards)
  {
    forall i :: 0 <= i < |shards| ==> shards[i].Valid()
  }

  ghost function States(shards: seq<Shard>): (s: seq<State>)
    reads shards, Queues(shards)
    requires AllValid(shards)
    ensures |s| == |shards|
  {
    seq(|shards|, i requires 0 <= i < |shards| reads shards, Queues(shards) requires AllValid(shards) =>
      shards[i].Keys())
  }

  /** One shard is cleaned; the others keep their state. */
  method CleanOne(shards: seq<Shard>, i: nat, limit: nat, now: int) returns (removed: nat)
    requires i < |shards| && Apart(shards) && AllValid(shards)
    modifies shards[i], shards[i].queue
    ensures AllValid(shards) && removed <= limit && States(shards) == old(States(shards))[i := States(shards)[i]]
    ensures Cleaned(old(States(shards))[i], States(shards)[i], now)
    ensures removed == |old(States(shards))[i].at| - |States(shards)[i].at|
    ensures removed < limit ==> NothingDue(States(shards)[i], now)
  {
    hide Queue.Valid, Queue.Deadlines, Cleaned, NothingDue;
    removed := shards[i].Clean(limit, now);
    forall j | 0 <= j < |shards| && j != i
      ensures shards[j].Valid() && shards[j].Keys() == old(shards[j].Keys())
    {
      assert shards[j] != shards[i] && shards[j].queue != shards[i].queue;
    }
  }

  /** The first `n` shards have been cleaned, and the others are as they were. */
  ghost predicate CleanedTo(a: seq<State>, b: seq<State>, nows: seq<int>, counts: seq<nat>, n: nat)
    requires |a| == |b| == |nows| == |counts| && n <= |a|
  {
    && (forall i :: 0 <= i < n ==> Cleaned(a[i], b[i], nows[i]) && counts[i] == |a[i].at| - |b[i].at|)
    && (forall i :: n <= i < |a| ==> b[i] == a[i] && counts[i] == 0)
  }

  lemma CleanedToNext(a: seq<State>, b: seq<State>, c: seq<State>, nows: seq<int>, counts: seq<nat>, n: nat, k: nat)
    requires |a| == |b| == |nows| == |counts| == |c| && n < |a| && CleanedTo(a, b, nows, counts, n)
    requires c == b[n := c[n]] && Cleaned(b[n], c[n], nows[n]) && k == |b[n].at| - |c[n].at|
    ensures CleanedTo(a, c, nows, counts[n := k], n + 1) && Sum(counts[n := k]) == Sum(counts) + k
  {
    hide Cleaned;
    SumUpdate(counts, n, k);
  }

  lemma CleanedAll(a: seq<State>, b: seq<State>, nows: seq<int>, counts: seq<nat>, n: nat)
    requires |a| == |b| == |nows| == |counts| && n <= |a| && CleanedTo(a, b, nows, counts, n)
    ensures CleanedTo(a, b, nows, counts, |a|)
  {
    forall i | n <= i < |a| ensures Cleaned(a[i], b[i], nows[i]) { CleanedNone(a[i], nows[i]); }
  }

  /** Cleanup over the shards in order; shard `i` reads the clock as `nows[i]`.  Only due keys go, the
      answer is their number, and below the limit no due key is left anywhere. */
  method Cleanup(shards: seq<Shard>, nows: seq<int>, limit: int) returns (removed: nat, ghost counts: seq<nat>)
    requires |nows| == |shards| && Apart(shards) && AllValid(shards)
    modifies shards, Queues(shards)
    ensures AllValid(shards) && |counts| == |shards| && removed == Sum(counts) && (limit >= 0 ==> removed <= limit)
    ensures CleanedTo(old(States(shards)), States(shards), nows, counts, |shards|)
    ensures 0 < limit && removed < limit ==> forall i :: 0 <= i < |shards| ==> NothingDue(States(shards)[i], nows[i])
    ensures limit <= 0 ==> removed == 0
  {
    hide AllValid, States, Cleaned, NothingDue, CleanedTo;
    ghost var a := States(shards);
    removed, counts := 0, seq(|shards|, _ => 0);
    SumZero(counts);
    assert CleanedTo(a, a, nows, counts, 0) by { CleanedStart(a, nows); }
    if limit <= 0 {
      CleanedAll(a, a, nows, counts, 0);
      return;
    }
    for i := 0 to |shards|
      invariant AllValid(shards) && |counts| == |shards| && removed == Sum(counts) && removed < limit
      invariant CleanedTo(a, States(shards), nows, counts, i)
      invariant forall j :: 0 <= j < i ==> NothingDue(States(shards)[j], nows[j])
    {
      ghost var b := States(shards);
      assert shards[i].queue in Queues(shards);
      var n := CleanOne(shards, i, limit - removed, nows[i]);
      CleanedToNext(a, b, States(shards), nows, counts, i, n);
      counts := counts[i := n];
      removed := removed + n;
      if removed >= limit {
        CleanedAll(a, States(shards), nows, counts, i + 1);
        return;
      }
    }
  }

  lemma CleanedStart(a: seq<State>, nows: seq<int>)
    requires |a| == |nows|
    ensures CleanedTo(a, a, nows, seq(|a|, _ => 0), 0)
  {
  }
}
