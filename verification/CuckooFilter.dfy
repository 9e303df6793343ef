/** The growing cuckoo filter.  It behaves as a multiset of tags: a tag is a fingerprint together
    with its pair of candidate buckets. */
module CuckooFilter {
  import opened Words
  import opened Bits
  import opened CuckooSlots

  const MAX_CAPACITY := 0x4000_0000
  const MAX_BYTES := 0x200_0000
  const MAX_FILTERS := 65535

  datatype Sub = Sub(numBuckets: nat, data: array<byte>)

  /** The tags of one sub-filter, empty slots left out. */
  function Bag(s: seq<byte>, n: nat, size: nat): multiset<Tag>
    requires n > 0 && size > 0
  {
    Held(s, n, size)[Empty := 0]
  }

  function Sum<T>(bags: seq<multiset<T>>): multiset<T>
  {
    if bags == [] then multiset{} else Sum(bags[..|bags| - 1]) + bags[|bags| - 1]
  }

  lemma {:induction false} SumUpdate<T>(bags: seq<multiset<T>>, i: nat, bag: multiset<T>)
    requires i < |bags|
    ensures bags[i] <= Sum(bags)
    ensures Sum(bags[i := bag]) == Sum(bags) - bags[i] + bag
  {
    var m := |bags| - 1;
    if i < m {
      assert bags[i := bag][..m] == bags[..m][i := bag];
      SumUpdate(bags[..m], i, bag);
    } else {
      assert bags[i := bag][..m] == bags[..m];
    }
  }

  lemma SumAdds<T>(bags: seq<multiset<T>>, i: nat, x: T)
    requires i < |bags|
    ensures Sum(bags[i := bags[i] + multiset{x}]) == Sum(bags) + multiset{x}
    ensures |Sum(bags[i := bags[i] + multiset{x}])| == |Sum(bags)| + 1
  {
    SumUpdate(bags, i, bags[i] + multiset{x});
  }

  lemma SumLoses<T>(bags: seq<multiset<T>>, i: nat, rest: multiset<T>, x: T)
    requires i < |bags| && bags[i] == rest + multiset{x}
    ensures Sum(bags) == Sum(bags[i := rest]) + multiset{x}
    ensures |Sum(bags)| == |Sum(bags[i := rest])| + 1
  {
    SumAdds(bags[i := rest], i, x);
    assert bags[i := rest][i := bags[i]] == bags;
  }

  lemma {:induction false} SumHas<T>(bags: seq<multiset<T>>, x: T)
    ensures x in Sum(bags) <==> exists i :: 0 <= i < |bags| && x in bags[i]
  {
    if bags != [] {
      var m := |bags| - 1;
      SumHas(bags[..m], x);
      if x in Sum(bags[..m]) {
        var i :| 0 <= i < m && x in bags[..m][i];
        assert x in bags[i];
      }
      if i :| 0 <= i < m && x in bags[i] {
        assert x in bags[..m][i];
      }
    }
  }

  /** A changed slot seen in the bags. */
  lemma BagAdds(s: seq<byte>, s': seq<byte>, tag: Tag, n: nat, size: nat)
    requires n > 0 && size > 0 && tag != Empty
    requires Held(s', n, size) + multiset{Empty} == Held(s, n, size) + multiset{tag}
    ensures Bag(s', n, size) == Bag(s, n, size) + multiset{tag}
  {
    forall t: Tag
      ensures Bag(s', n, size)[t] == (Bag(s, n, size) + multiset{tag})[t]
    {
      assert (Held(s', n, size) + multiset{Empty})[t] == (Held(s, n, size) + multiset{tag})[t];
    }
  }

  lemma BagLoses(s: seq<byte>, s': seq<byte>, tag: Tag, n: nat, size: nat)
    requires n > 0 && size > 0 && tag != Empty && tag in Held(s, n, size)
    requires Held(s', n, size) == Held(s, n, size) - multiset{tag} + multiset{Empty}
    ensures Bag(s, n, size) == Bag(s', n, size) + multiset{tag}
  {
  }

  /** The slots have the given shape and hold exactly the tags of `bag`.  The guard keeps the
      definition folded in proofs that only pass it along. */
  ghost predicate Holds(s: seq<byte>, n: nat, size: nat, bag: multiset<Tag>)
  {
    n > 0 && size > 0 && forall k {:trigger Open(k)} :: Open(k) ==> Shaped(s, n, size) && bag == Bag(s, n, size)
  }

  /** The fingerprint can go into these slots, directly or (`kick`) by a chain of evictions. */
  ghost predicate Takes(s: seq<byte>, n: nat, size: nat, maxIterations: nat, lookup: Lookup, kick: bool)
  {
    && Shaped(s, n, size)
    && if kick then ChainEnds(s, n, size, maxIterations, lookup)
       else Room(s, lookup.h1 % n, size) || Room(s, lookup.h2 % n, size)
  }

  /** Puts a fingerprint into one sub-filter, directly or by eviction, seen as a bag of tags. */
  method Place(data: array<byte>, n: nat, size: nat, maxIterations: nat, lookup: Lookup, kick: bool,
               ghost bag: multiset<Tag>)
    returns (ok: bool)
    requires Holds(data[..], n, size, bag) && Looks(lookup)
    modifies data
    ensures ok <==> Takes(old(data[..]), n, size, maxIterations, lookup, kick)
    ensures !ok ==> data[..] == old(data[..]) && Holds(data[..], n, size, bag)
    ensures !ok && !kick ==> exists j :: 0 <= j < data.Length && data[j] != 0
    ensures ok ==> Holds(data[..], n, size, bag + multiset{TagFor(lookup, n)})
  {
    assert Open(0);
    ghost var before := data[..];
    if kick {
      ok := KickInsert(data, n, size, maxIterations, lookup);
    } else {
      ok := PlaceDirect(data, n, size, lookup);
    }
    if ok { BagAdds(before, data[..], TagFor(lookup, n), n, size); }
  }

  method Remove(data: array<byte>, n: nat, size: nat, lookup: Lookup, ghost bag: multiset<Tag>)
    returns (ok: bool, ghost rest: multiset<Tag>)
    requires Holds(data[..], n, size, bag) && Looks(lookup)
    modifies data
    ensures Holds(data[..], n, size, rest)
    ensures ok <==> TagFor(lookup, n) in bag
    ensures !ok ==> data[..] == old(data[..]) && rest == bag
    ensures ok ==> bag == rest + multiset{TagFor(lookup, n)}
  {
    assert Open(0);
    ghost var before := data[..];
    ok := RemoveOne(data, n, size, lookup);
    if ok { BagLoses(before, data[..], TagFor(lookup, n), n, size); }
    rest := Bag(data[..], n, size);
  }

  method Find(data: array<byte>, n: nat, size: nat, lookup: Lookup, ghost bag: multiset<Tag>) returns (found: bool)
    requires Holds(data[..], n, size, bag) && Looks(lookup)
    ensures found <==> TagFor(lookup, n) in bag
  {
    assert Open(0);
    var slot := FilterFind(data, n, size, lookup);
    found := slot >= 0;
  }

  class Filter {
    const hash: seq<byte> -> nat
    const numBuckets: nat
    const bucketSize: nat
    const maxIterations: nat
    const expansion: nat
    var numItems: nat
    var numDeletes: nat
    var filters: seq<Sub>
    ghost var bags: seq<multiset<Tag>>

    ghost function Arrays(): set<array<byte>>
      reads this
    {
      set i | 0 <= i < |filters| :: filters[i].data
    }

    /** The multiset of tags the filter stands for. */
    ghost function Items(): multiset<Tag>
      reads this
    {
      Sum(bags)
    }

    function TagOfItem(item: seq<byte>): Tag
      requires numBuckets > 0
    {
      TagFor(LookupFor(hash(item)), numBuckets)
    }

    /** Sub-filter `i` has the common shape and holds the tags of `bags[i]`. */
    ghost predicate SubValid(i: nat)
      reads this, if i < |filters| then {filters[i].data} else {}
      requires i < |filters| == |bags|
    {
      && filters[i].numBuckets == numBuckets
      && Holds(filters[i].data[..], numBuckets, bucketSize, bags[i])
    }

    /** All sub-filters share one power-of-two bucket count, and the item counter is exact. */
    ghost predicate Valid()
      reads this, Arrays()
    {
      && PowerOfTwo(numBuckets) && bucketSize > 0 && expansion == 1
      && 0 < |filters| == |bags| <= MAX_FILTERS
      && (forall i {:trigger SubValid(i)} :: 0 <= i < |filters| ==> SubValid(i))
      && (forall i, j :: 0 <= i < j < |filters| ==> filters[i].data != filters[j].data)
      && numItems == |Items()|
    }

    method SubContains(i: nat, item: seq<byte>) returns (found: bool)
      requires Valid() && i < |filters|
      ensures found <==> TagOfItem(item) in bags[i]
    {
      assert SubValid(i);
      found := Find(filters[i].data, filters[i].numBuckets, bucketSize, LookupFor(hash(item)), bags[i]);
    }

    constructor (hash: seq<byte> -> nat, numBuckets: nat)
      ensures this.hash == hash && this.numBuckets == numBuckets && bucketSize == 2 && maxIterations == 20
      ensures expansion == 1
      ensures filters == [] && bags == [] && numItems == 0 && numDeletes == 0
    {
      this.hash := hash;
      this.numBuckets := numBuckets;
      bucketSize, maxIterations, expansion := 2, 20, 1;
      numItems, numDeletes, filters, bags := 0, 0, [], [];
    }

    /** A filter from stored parts. */
    constructor Loaded(hash: seq<byte> -> nat, numBuckets: nat, bucketSize: nat, maxIterations: nat, expansion: nat,
                       numItems: nat, numDeletes: nat, filters: seq<Sub>, ghost bags: seq<multiset<Tag>>)
      ensures this.hash == hash && this.numBuckets == numBuckets && this.bucketSize == bucketSize
      ensures this.maxIterations == maxIterations && this.expansion == expansion
      ensures this.numItems == numItems && this.numDeletes == numDeletes && this.filters == filters && this.bags == bags
    {
      this.hash, this.numBuckets, this.bucketSize := hash, numBuckets, bucketSize;
      this.maxIterations, this.expansion := maxIterations, expansion;
      this.numItems, this.numDeletes, this.filters, this.bags := numItems, numDeletes, filters, bags;
    }

    /** Membership answers whether the item's tag is stored. */
    method Contains(item: seq<byte>) returns (found: bool)
      requires Valid()
      ensures found <==> TagOfItem(item) in Items()
    {
      SumHas(bags, TagOfItem(item));
      for i := 0 to |filters|
        invariant Valid()
        invariant forall j :: 0 <= j < i ==> TagOfItem(item) !in bags[j]
      {
        found := SubContains(i, item);
        if found { return; }
      }
      return false;
    }

    /** Sub-filter `i` can take the item, directly or (`kick`) by a chain of evictions. */
    ghost predicate SubTakes(i: nat, item: seq<byte>, kick: bool)
      reads this, if i < |filters| then {filters[i].data} else {}
      requires i < |filters|
    {
      Takes(filters[i].data[..], numBuckets, bucketSize, maxIterations, LookupFor(hash(item)), kick)
    }

    /** Some sub-filter has a free slot for the item, or evictions in the newest one make one. */
    ghost predicate HasRoom(item: seq<byte>)
      reads this, Arrays()
      requires |filters| > 0
    {
      (exists i :: 0 <= i < |filters| && SubTakes(i, item, false)) || SubTakes(|filters| - 1, item, true)
    }

    /** Puts the item's fingerprint into sub-filter `i`, directly or (`kick`) by eviction. */
    method SubPlace(i: nat, item: seq<byte>, kick: bool) returns (ok: bool)
      requires Valid() && i < |filters|
      modifies filters[i].data, `bags, `numItems
      ensures Valid()
      ensures ok <==> old(SubTakes(i, item, kick))
      ensures !ok ==> bags == old(bags) && numItems == old(numItems) && filters[i].data[..] == old(filters[i].data[..])
      ensures ok ==> Items() == old(Items()) + multiset{TagOfItem(item)}
      ensures !ok && !kick ==> exists j :: 0 <= j < filters[i].data.Length && filters[i].data[j] != 0
    {
      hide Sum, Holds, TagFor, Takes;
      assert SubValid(i);
      ghost var tag := TagOfItem(item);
      ok := Place(filters[i].data, filters[i].numBuckets, bucketSize, maxIterations, LookupFor(hash(item)), kick,
        bags[i]);
      if ok {
        SumAdds(bags, i, tag);
        bags := bags[i := bags[i] + multiset{tag}];
        numItems := numItems + 1;
      }
      forall j | 0 <= j < |filters|
        ensures SubValid(j)
      {
        assert old(SubValid(j));
      }
    }

    method SubRemove(i: nat, item: seq<byte>) returns (ok: bool)
      requires Valid() && i < |filters|
      modifies filters[i].data, `bags, `numItems, `numDeletes
      ensures Valid()
      ensures ok <==> TagOfItem(item) in old(bags[i])
      ensures !ok ==> bags == old(bags) && numItems == old(numItems) && numDeletes == old(numDeletes)
      ensures !ok ==> filters[i].data[..] == old(filters[i].data[..])
      ensures ok ==> old(Items()) == Items() + multiset{TagOfItem(item)} && numDeletes == old(numDeletes) + 1
    {
      hide Sum, Holds, TagFor, Filter.SubTakes;
      assert SubValid(i);
      ghost var rest;
      ok, rest := Remove(filters[i].data, filters[i].numBuckets, bucketSize, LookupFor(hash(item)), bags[i]);
      if ok {
        SumLoses(bags, i, rest, TagOfItem(item));
        numItems := numItems - 1;
        numDeletes := numDeletes + 1;
      }
      assert !ok ==> bags[i := rest] == bags;
      bags := bags[i := rest];
      forall j | 0 <= j < |filters|
        ensures SubValid(j)
      {
        assert old(SubValid(j));
      }
    }

    /** Removes one occurrence of the item's tag; reports whether there was one. */
    method Delete(item: seq<byte>) returns (deleted: bool)
      requires Valid()
      modifies `bags, `numItems, `numDeletes, Arrays()
      ensures Valid()
      ensures deleted <==> TagOfItem(item) in old(Items())
      ensures old(Items()) == if deleted then Items() + multiset{TagOfItem(item)} else Items()
      ensures numDeletes == old(numDeletes) + if deleted then 1 else 0
    {
      SumHas(bags, TagOfItem(item));
      for k := |filters| downto 0
        invariant Valid() && filters == old(filters)
        invariant bags == old(bags) && numDeletes == old(numDeletes)
        invariant forall j :: k <= j < |filters| ==> TagOfItem(item) !in bags[j]
      {
        deleted := SubRemove(k, item);
        if deleted { return; }
      }
      return false;
    }

    /** One more sub-filter stays within the size limits. */
    ghost predicate Affordable()
    {
      forall k {:trigger Open(k)} :: Open(k) ==> numBuckets <= MAX_CAPACITY && numBuckets * bucketSize <= MAX_BYTES
    }

    ghost predicate CanGrow()
      reads `filters
    {
      |filters| < MAX_FILTERS && Affordable()
    }

    /** Appends an empty sub-filter; the bucket count is multiplied by expansion once per sub-filter. */
    method Grow() returns (ok: bool)
      requires PowerOfTwo(numBuckets) && bucketSize > 0 && expansion == 1 && |bags| == |filters| <= MAX_FILTERS
      requires forall i :: 0 <= i < |filters| ==> SubValid(i)
      requires forall i, j :: 0 <= i < j < |filters| ==> filters[i].data != filters[j].data
      requires numItems == |Items()|
      modifies `filters, `bags
      ensures ok <==> old(CanGrow())
      ensures !ok ==> filters == old(filters) && bags == old(bags)
      ensures ok ==> Valid() && Items() == old(Items()) && |filters| == old(|filters|) + 1
      ensures ok ==> filters[..|filters| - 1] == old(filters) && fresh(filters[|filters| - 1].data)
      ensures ok ==> Blank(filters[|filters| - 1].data)
    {
      assert Open(0);
      if |filters| >= MAX_FILTERS { return false; }
      var growth := 1;
      for i := 0 to |filters|
        invariant growth == 1
      {
        if expansion == 0 { return false; }
        if growth > (TWO64 - 1) / expansion { return false; }
        growth := growth * expansion;
      }
      if numBuckets > (TWO64 - 1) / growth { return false; }
      var buckets := numBuckets * growth;
      if buckets > MAX_CAPACITY { return false; }
      var bytesNeeded := buckets * bucketSize;
      if bytesNeeded > MAX_BYTES { return false; }
      var data := new byte[bytesNeeded](_ => 0);
      filters := filters + [Sub(buckets, data)];
      bags := bags + [multiset{}];
      EmptyHolds(data[..], numBuckets, bucketSize);
      assert bags[..|bags| - 1] == old(bags);
      forall j | 0 <= j < |filters|
        ensures SubValid(j)
      {
        if j < |filters| - 1 { assert old(SubValid(j)); }
      }
      return true;
    }

    /** Adds the item's tag.  With `unique` an item that seems present is refused.  When no slot can
        be found and the filter cannot grow, it is left exactly as it was.  After growing, the second
        attempt always succeeds, so the recursion is at most one deep. */
    method Insert(item: seq<byte>, unique: bool) returns (added: bool, err: bool)
      requires Valid()
      modifies this, Arrays()
      ensures Valid() && numDeletes == old(numDeletes) && fresh(Arrays() - old(Arrays()))
      ensures err ==> !added && filters == old(filters) && Items() == old(Items())
      ensures err ==> forall i :: 0 <= i < |filters| ==> filters[i].data[..] == old(filters[i].data[..])
      ensures |filters| <= old(|filters|) + 1
      ensures old(Blank(filters[|filters| - 1].data)) ==> !err && filters == old(filters)
      ensures err <==> !(unique && TagOfItem(item) in old(Items())) && !old(HasRoom(item)) && !old(CanGrow())
      ensures !err ==> (added <==> !(unique && TagOfItem(item) in old(Items())))
      ensures Items() == if added then old(Items()) + multiset{TagOfItem(item)} else old(Items())
      decreases if Blank(filters[|filters| - 1].data) then 0 else 1, 1
    {
      hide Filter.HasRoom, Filter.SubTakes, Filter.CanGrow, Filter.SubValid, Sum;
      if unique {
        var found := Contains(item);
        if found { return false, false; }
      }
      var ok := PlaceOrKick(item);
      if ok { return true, false; }
      added, err := GrowAndInsert(item, unique);
    }

    /** The end of an insertion that found no slot: grow and insert again. */
    method GrowAndInsert(item: seq<byte>, unique: bool) returns (added: bool, err: bool)
      requires Valid() && !(unique && TagOfItem(item) in Items())
      modifies this, Arrays()
      ensures Valid() && numDeletes == old(numDeletes) && fresh(Arrays() - old(Arrays()))
      ensures err ==> !added && filters == old(filters) && Items() == old(Items())
      ensures err ==> forall i :: 0 <= i < |filters| ==> filters[i].data[..] == old(filters[i].data[..])
      ensures err <==> !old(CanGrow())
      ensures |filters| <= old(|filters|) + 1
      ensures !err ==> added && Items() == old(Items()) + multiset{TagOfItem(item)}
      decreases 1, 0
    {
      hide Filter.HasRoom, Filter.SubTakes, Filter.CanGrow, Sum;
      if expansion == 0 { return false, true; }
      var ok := Grow();
      if !ok { return false, true; }
      added, err := Insert(item, unique);
    }

    /** A free slot in some sub-filter, else an eviction chain in the newest one. */
    method PlaceOrKick(item: seq<byte>) returns (ok: bool)
      requires Valid()
      modifies `bags, `numItems, Arrays()
      ensures Valid()
      ensures ok <==> old(HasRoom(item))
      ensures ok ==> Items() == old(Items()) + multiset{TagOfItem(item)}
      ensures !ok ==> bags == old(bags) && numItems == old(numItems) && !Blank(filters[|filters| - 1].data)
      ensures !ok ==> forall i :: 0 <= i < |filters| ==> filters[i].data[..] == old(filters[i].data[..])
    {
      ok := PlaceAnywhere(item);
      if !ok {
        ok := SubPlace(|filters| - 1, item, true);
      }
    }

    /** Tries the two buckets of the item in every sub-filter, newest first. */
    method PlaceAnywhere(item: seq<byte>) returns (ok: bool)
      requires Valid()
      modifies `bags, `numItems, Arrays()
      ensures Valid()
      ensures ok <==> old(exists i :: 0 <= i < |filters| && SubTakes(i, item, false))
      ensures ok ==> Items() == old(Items()) + multiset{TagOfItem(item)}
      ensures !ok ==> bags == old(bags) && numItems == old(numItems) && !Blank(filters[|filters| - 1].data)
      ensures !ok ==> forall i :: 0 <= i < |filters| ==> filters[i].data[..] == old(filters[i].data[..])
    {
      for k := |filters| downto 0
        invariant Valid() && bags == old(bags) && numItems == old(numItems)
        invariant forall i :: 0 <= i < |filters| ==> filters[i].data[..] == old(filters[i].data[..])
        invariant k < |filters| ==> !Blank(filters[|filters| - 1].data)
        invariant forall i :: k <= i < |filters| ==> !old(SubTakes(i, item, false))
      {
        ok := SubPlace(k, item, false);
        if ok { return; }
      }
      return false;
    }
  }

  /** A new filter for a capacity, or nothing when the capacity is refused.  The bucket count is the
      least power of two that holds the capacity at two slots a bucket. */
  method NewFilter(hash: seq<byte> -> nat, capacity: nat) returns (f: Filter?)
    ensures f != null ==>
      fresh(f) && fresh(f.Arrays()) && f.Valid() && f.hash == hash && f.Items() == multiset{} && f.numDeletes == 0
    ensures f != null ==> f.numBuckets == NextPowerOfTwo(capacity / 2) && f.Affordable()
    ensures f != null ==> capacity / 2 <= f.numBuckets && f.numBuckets / 2 < capacity / 2
    ensures f != null ==> |f.filters| == 1 && Blank(f.filters[0].data)
    ensures f == null <==> capacity < 4 || capacity / 2 > MAX_BYTES / 2
  {
    if capacity < 4 || capacity > MAX_CAPACITY { return null; }
    ghost var k := NextPowerOfTwoCorrect(capacity / 2);
    RoomFor(capacity / 2, k);
    var base := NextPowerOfTwo(capacity / 2);
    f := new Filter(hash, base);
    assert Open(0);
    var ok := f.Grow();
    if !ok { return null; }
  }

  /** Rounding up to a power of two never crosses the size limit, itself a power of two. */
  lemma RoomFor(m: nat, k: nat)
    requires m <= Pow(2, k) && (k > 0 ==> Pow(2, k - 1) < m)
    ensures Pow(2, k) <= MAX_BYTES / 2 <==> m <= MAX_BYTES / 2
  {
    PowEight(3);
    assert Pow(256, 3) == 256 * Pow(256, 2) && Pow(256, 2) == 256 * Pow(256, 1) && Pow(256, 1) == 256;
    if k <= 24 { PowMonotone(k, 24); } else { PowMonotone(24, k - 1); }
  }

  ghost predicate Blank(data: array<byte>)
    reads data
  {
    forall j :: 0 <= j < data.Length ==> data[j] == 0
  }

  lemma EmptyHolds(s: seq<byte>, n: nat, size: nat)
    requires Shaped(s, n, size) && forall i :: 0 <= i < |s| ==> s[i] == 0
    ensures Holds(s, n, size, multiset{})
  {
    EmptyBag(s, n, size);
  }

  lemma EmptyBag(s: seq<byte>, n: nat, size: nat)
    requires n > 0 && size > 0 && forall i :: 0 <= i < |s| ==> s[i] == 0
    ensures Bag(s, n, size) == multiset{}
  {
    var t := Tags(s, n, size);
    forall x: Tag
      ensures Bag(s, n, size)[x] == 0
    {
      assert x != Empty ==> x !in t;
    }
  }

  // ---- runs ----

  type Item = seq<byte>

  /** A client that inserts items and deletes or queries items it still holds. */
  datatype Op = Add(item: Item, unique: bool) | Del(k: nat) | Query(k: nat)

  /** The tag of an item among `n` buckets. */
  function ItemTag(hash: Item -> nat, item: Item, n: nat): Tag
    requires n > 0
  {
    TagFor(LookupFor(hash(item)), n)
  }

  /** Some item of the list has the tag of `item`. */
  ghost predicate Seen(hash: Item -> nat, n: nat, live: seq<Item>, item: Item)
    requires n > 0
  {
    exists j :: 0 <= j < |live| && ItemTag(hash, live[j], n) == ItemTag(hash, item, n)
  }

  /** The answer an operation should get: an insertion is made unless it asks for a new item and one with
      its tag is held; the others always find their item. */
  ghost predicate Answered(hash: Item -> nat, n: nat, live: seq<Item>, op: Op, answer: bool)
    requires n > 0
  {
    if op.Add? then answer <==> !(op.unique && Seen(hash, n, live, op.item)) else answer
  }

  /** The items the client still holds after an operation that answered `answer`. */
  function Keep(live: seq<Item>, op: Op, answer: bool): seq<Item>
  {
    match op
    case Add(item, _) => if answer then live + [item] else live
    case Del(k) => if k < |live| then live[..k] + live[k + 1..] else live
    case Query(_) => live
  }

  function Kept(ops: seq<Op>, answers: seq<bool>): seq<Item>
    requires |ops| == |answers|
  {
    if ops == [] then []
    else
      var n := |ops| - 1;
      Keep(Kept(ops[..n], answers[..n]), ops[n], answers[n])
  }

  ghost function TagsOf(f: Filter, items: seq<Item>): (r: seq<Tag>)
    requires f.numBuckets > 0
    ensures |r| == |items| && forall i :: 0 <= i < |items| ==> r[i] == f.TagOfItem(items[i])
  {
    seq(|items|, i requires 0 <= i < |items| => f.TagOfItem(items[i]))
  }

  /** The filter holds exactly one slot per live item, each in the item's own tag class. */
  ghost predicate Tracks(f: Filter, live: seq<Item>)
    reads f, f.Arrays()
  {
    f.Valid() && f.Items() == multiset(TagsOf(f, live))
  }

  lemma TracksNone(f: Filter)
    requires f.Valid() && f.Items() == multiset{}
    ensures Tracks(f, [])
  {
    assert TagsOf(f, []) == [];
  }

  lemma TracksCount(f: Filter, live: seq<Item>)
    requires Tracks(f, live)
    ensures f.numItems == |live|
  {
  }

  lemma TracksAdd(f: Filter, live: seq<Item>, item: Item)
    requires f.numBuckets > 0
    ensures multiset(TagsOf(f, live + [item])) == multiset(TagsOf(f, live)) + multiset{f.TagOfItem(item)}
  {
    assert TagsOf(f, live + [item]) == TagsOf(f, live) + [f.TagOfItem(item)];
  }

  lemma TracksSeen(f: Filter, live: seq<Item>, item: Item)
    requires Tracks(f, live)
    ensures f.TagOfItem(item) in f.Items() <==> Seen(f.hash, f.numBuckets, live, item)
  {
    var t := TagsOf(f, live);
    assert f.TagOfItem(item) in multiset(t) <==> f.TagOfItem(item) in t;
  }

  lemma TracksDel(f: Filter, live: seq<Item>, k: nat)
    requires f.numBuckets > 0 && k < |live|
    ensures multiset(TagsOf(f, live)) == multiset(TagsOf(f, live[..k] + live[k + 1..])) + multiset{f.TagOfItem(live[k])}
    ensures f.TagOfItem(live[k]) in multiset(TagsOf(f, live))
  {
    var t, tag := TagsOf(f, live), f.TagOfItem(live[k]);
    assert TagsOf(f, live[..k] + live[k + 1..]) == t[..k] + t[k + 1..];
    assert t == t[..k] + [tag] + t[k + 1..];
  }

  lemma Cancel<T>(a: multiset<T>, b: multiset<T>, x: T)
    requires a + multiset{x} == b + multiset{x}
    ensures a == b
  {
    forall y: T
      ensures a[y] == b[y]
    {
      assert (a + multiset{x})[y] == (b + multiset{x})[y];
    }
  }

  method DoAdd(f: Filter, item: Item, unique: bool, live: seq<Item>) returns (live': seq<Item>, added: bool)
    requires Tracks(f, live)
    modifies f, f.Arrays()
    ensures Tracks(f, live') && fresh(f.Arrays() - old(f.Arrays())) && |f.filters| <= old(|f.filters|) + 1
    ensures live' == if added then live + [item] else live
    ensures added || old(f.CanGrow()) ==> (added <==> !(unique && Seen(f.hash, f.numBuckets, live, item)))
  {
    TracksAdd(f, live, item);
    TracksSeen(f, live, item);
    var err;
    added, err := f.Insert(item, unique);
    live' := if added then live + [item] else live;
  }

  method DoDel(f: Filter, k: nat, live: seq<Item>) returns (live': seq<Item>, answer: bool)
    requires Tracks(f, live) && k < |live|
    modifies f, f.Arrays()
    ensures Tracks(f, live') && f.filters == old(f.filters) && answer && live' == live[..k] + live[k + 1..]
  {
    live' := live[..k] + live[k + 1..];
    TracksDel(f, live, k);
    answer := f.Delete(live[k]);
    Cancel(f.Items(), multiset(TagsOf(f, live')), f.TagOfItem(live[k]));
  }

  method DoQuery(f: Filter, k: nat, live: seq<Item>) returns (answer: bool)
    requires Tracks(f, live) && k < |live|
    ensures answer
  {
    TracksDel(f, live, k);
    answer := f.Contains(live[k]);
  }

  method Step(f: Filter, op: Op, live: seq<Item>) returns (live': seq<Item>, answer: bool)
    requires Tracks(f, live)
    modifies f, f.Arrays()
    ensures Tracks(f, live') && fresh(f.Arrays() - old(f.Arrays()))
    ensures !op.Add? ==> answer
    ensures |f.filters| <= old(|f.filters|) + 1
    ensures answer || old(f.CanGrow()) ==> Answered(f.hash, f.numBuckets, live, op, answer)
    ensures live' == Keep(live, op, answer)
  {
    live', answer := live, true;
    match op {
      case Add(item, unique) => live', answer := DoAdd(f, item, unique, live);
      case Del(k) =>
        if k < |live| { live', answer := DoDel(f, k, live); }
      case Query(k) =>
        if k < |live| { answer := DoQuery(f, k, live); }
    }
  }

  /** Over every run of inserts and of deletes and queries of items currently present: no query of a
      present item is ever answered no, no delete of one fails, and the item counter equals the
      number of items present.  A unique insertion of an item whose tag is held is never made; while there
      are fewer operations than sub-filters that a filter may have, every other insertion is. */
  method Run(hash: Item -> nat, capacity: nat, ops: seq<Op>) returns (answers: seq<bool>, numItems: nat)
    requires 4 <= capacity && capacity / 2 <= MAX_BYTES / 2
    ensures |answers| == |ops| && NextPowerOfTwo(capacity / 2) > 0
    ensures forall i :: 0 <= i < |ops| && !ops[i].Add? ==> answers[i]
    ensures forall i :: 0 <= i < |ops| && (answers[i] || i + 1 < MAX_FILTERS) ==>
      Answered(hash, NextPowerOfTwo(capacity / 2), Kept(ops[..i], answers[..i]), ops[i], answers[i])
    ensures numItems == |Kept(ops, answers)|
  {
    hide Tracks, Filter.Valid, Answered, NextPowerOfTwo, Filter.Affordable, Kept;
    var f := NewFilter(hash, capacity);
    var live: seq<Item>;
    answers, live := [], [];
    TracksNone(f);
    KeptNone();
    ghost var n := f.numBuckets;
    for i := 0 to |ops|
      invariant fresh(f) && fresh(f.Arrays()) && Tracks(f, live) && |f.filters| <= i + 1
      invariant |answers| == i && live == Kept(ops[..i], answers)
      invariant forall j :: 0 <= j < i && !ops[j].Add? ==> answers[j]
      invariant forall j :: 0 <= j < i && (answers[j] || j + 1 < MAX_FILTERS) ==>
        Answered(hash, n, Kept(ops[..j], answers[..j]), ops[j], answers[j])
    {
      var answer;
      live, answer := Step(f, ops[i], live);
      KeptNext(ops, answers, answer, i);
      answers := answers + [answer];
    }
    assert ops[..|ops|] == ops;
    TracksCount(f, live);
    numItems := f.numItems;
  }

  lemma KeptNone()
    ensures Kept([], []) == []
  {
  }

  lemma KeptNext(ops: seq<Op>, answers: seq<bool>, answer: bool, i: nat)
    requires |answers| == i < |ops|
    ensures Kept(ops[..i + 1], answers + [answer]) == Keep(Kept(ops[..i], answers), ops[i], answer)
    ensures (answers + [answer])[..i] == answers && forall j :: 0 <= j < i ==> (answers + [answer])[..j] == answers[..j]
  {
    hide Keep;
    assert ops[..i + 1][..i] == ops[..i] && (answers + [answer])[..i] == answers;
  }
}
