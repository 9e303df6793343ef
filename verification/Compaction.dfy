/** Compaction of a shard: a fresh arena, index and entry list that show the same keys and values. */
module Compaction {
  import opened Words
  import opened ArenaSizing
  import opened ArenaLayout
  import opened ArenaAllocator
  import opened ArenaRefs
  import ArenaRuns
  import opened EntryPack

  type Key = seq<byte>

  /** Optimizer metadata of an entry; compaction only carries it along. */
  type Meta = seq<byte>

  /** What a key shows: its stored bytes, its type, codec and flags, and its metadata. */
  datatype Stored = Stored(bytes: seq<byte>, rawLength: nat, codec: nat, kind: nat, hasExpiry: bool, rawStable: bool,
                           meta: Option<Meta>)

  function Shows(bytes: seq<byte>, e: Entry, meta: Option<Meta>): Stored
  {
    Stored(bytes, e.rawLength, e.codec, e.kind, e.hasExpiry, e.rawStable, meta)
  }

  // ---- the shard ----

  class Shard {
    var arena: Arena
    var index: map<Key, nat>
    var entries: seq<Packed>
    var metas: Option<seq<Option<Meta>>>

    constructor ()
      ensures Valid() && fresh(arena) && Contents() == map[]
    {
      arena := new Arena();
      index, entries, metas := map[], [], None;
    }

    ghost predicate Indexed()
      reads this
    {
      && (forall k :: k in index ==> index[k] < |entries|)
      && (forall i :: 0 <= i < |entries| ==> entries[i].location < TWO64 && entries[i].meta < TWO64)
      && (metas.Some? ==> |metas.value| == |entries|)
    }

    ghost predicate Valid()
      reads this, arena
    {
      && arena.Valid() && Indexed()
      && (forall k :: k in index ==> arena.View(EntryOf(k).ref).Some?)
    }

    function EntryOf(k: Key): Entry
      reads this
      requires k in index && index[k] < |entries|
    {
      Unpack(entries[index[k]])
    }

    function MetaOf(k: Key): Option<Meta>
      reads this
      requires k in index && index[k] < |entries| && (metas.Some? ==> |metas.value| == |entries|)
    {
      if metas.Some? then metas.value[index[k]] else None
    }

    /** The stored bytes of a key. */
    function Encoded(k: Key): seq<byte>
      reads this, arena
      requires Valid() && k in index
    {
      arena.View(EntryOf(k).ref).value
    }

    /** What the shard shows. */
    ghost function Contents(): map<Key, Stored>
      reads this, arena
      requires Valid()
    {
      map k | k in index :: Shows(Encoded(k), EntryOf(k), MetaOf(k))
    }
  }

  /** The keys of a shard, each once, in any order. */
  ghost predicate Lists(order: seq<Key>, index: map<Key, nat>)
  {
    && (forall i, j :: 0 <= i < j < |order| ==> order[i] != order[j])
    && (forall i :: 0 <= i < |order| ==> order[i] in index)
    && (forall k :: k in index ==> k in order)
  }

  /** What each key takes of an arena when it is moved: nothing when it is inline. */
  ghost function MovedLengths(shard: Shard, order: seq<Key>): (r: seq<nat>)
    reads shard, shard.arena
    requires shard.Valid() && forall i :: 0 <= i < |order| ==> order[i] in shard.index
    ensures |r| == |order|
    ensures forall i :: 0 <= i < |order| ==>
      r[i] == if shard.EntryOf(order[i]).ref.IsInline() then 0 else |shard.Encoded(order[i])|
  {
    seq(|order|, i requires 0 <= i < |order| && order[i] in shard.index && shard.Valid() reads shard, shard.arena =>
      if shard.EntryOf(order[i]).ref.IsInline() then 0 else |shard.Encoded(order[i])|)
  }

  /** A moved item: its entry with the new reference, and its metadata. */
  datatype Moved = Moved(entry: Entry, meta: Option<Meta>)

  /** The items moved so far read in the new arena as their keys do in the shard. */
  ghost predicate MovedTo(L: Layout, items: seq<Moved>, order: seq<Key>, shown: map<Key, Stored>)
  {
    && |items| <= |order|
    && (forall i :: 0 <= i < |items| ==> order[i] in shown && GoodItem(L, items[i], shown[order[i]]))
  }

  ghost predicate GoodItem(L: Layout, x: Moved, s: Stored)
  {
    Holds(L, x.entry.ref, s.bytes) && EntryPack.Fits(x.entry) && Shows(s.bytes, x.entry, x.meta) == s
  }

  lemma MovedNext(L: Layout, M: Layout, items: seq<Moved>, order: seq<Key>, shown: map<Key, Stored>, x: Moved)
    requires MovedTo(L, items, order, shown) && Keeps(L, M) && |items| < |order| && order[|items|] in shown
    requires GoodItem(M, x, shown[order[|items|]])
    ensures MovedTo(M, items + [x], order, shown)
  {
    hide Holds, Keeps;
    var next := items + [x];
    forall i | 0 <= i < |next|
      ensures order[i] in shown && GoodItem(M, next[i], shown[order[i]])
    {
      if i < |items| { StillHolds(L, M, items[i].entry.ref, shown[order[i]].bytes); }
    }
  }

  /** Copies the value of one key into the new arena, inline again when it was. */
  method MoveOne(shard: Shard, target: Arena, k: Key, ghost done: seq<nat>) returns (x: Moved)
    requires shard.Valid() && k in shard.index && |shard.Encoded(k)| + 8 <= MAX_BLOCK && target != shard.arena
    requires (forall i :: 0 <= i < |done| ==> done[i] + 8 <= MAX_BLOCK) && ArenaRuns.Grew(target, EmptyShape(), 0, done)
    requires |target.segments| < MAX_SEGMENTS
    modifies target
    ensures ArenaRuns.Grew(target, EmptyShape(), 0,
                           done + [if shard.EntryOf(k).ref.IsInline() then 0 else |shard.Encoded(k)|])
    ensures |target.segments| <= old(|target.segments|) + 1 && target.free.Some? == old(target.free.Some?)
    ensures Keeps(old(target.layout), target.layout) && shard.Valid()
    ensures k in shard.Contents() && GoodItem(target.layout, x, shard.Contents()[k])
  {
    hide Arena.Valid, Keeps, Holds, GoodItem, Arena.View, Arena.ShapeOf, Arena.MemoryBytes, ArenaRuns.Grew, TotalGrowth;
    var e, v := shard.EntryOf(k), shard.Encoded(k);
    if e.ref.IsInline() { InlineLength(shard.arena, e.ref); }
    var ref := ArenaRuns.PutValue(target, e.ref.IsInline(), v, EmptyShape(), 0, done);
    x := Moved(e.(ref := ref), shard.MetaOf(k));
    ItemGood(target.layout, shard.entries[shard.index[k]], ref, v, shard.MetaOf(k));
  }

  /** Moves every item into a fresh arena. */
  method MoveAll(shard: Shard, order: seq<Key>) returns (target: Arena, items: seq<Moved>)
    requires shard.Valid() && Lists(order, shard.index) && |order| <= MAX_SEGMENTS
    requires forall k :: k in shard.index ==> |shard.Encoded(k)| + 8 <= MAX_BLOCK
    ensures fresh(target) && target.Valid() && |items| == |order|
    ensures MovedTo(target.layout, items, order, shard.Contents())
    ensures forall i :: 0 <= i < |order| ==> MovedLengths(shard, order)[i] + 8 <= MAX_BLOCK
    ensures target.TotalMemoryBytes() == TotalGrowth(EmptyShape(), MovedLengths(shard, order))
  {
    hide Arena.Valid, MovedTo, Keeps, Holds, GoodItem, Arena.View, Arena.ShapeOf, Arena.MemoryBytes, ArenaRuns.Grew,
      TotalGrowth, Shard.Encoded, Shard.EntryOf, Unpack, MovedLengths, Arena.TotalMemoryBytes, Shard.Valid,
      Shard.Contents;
    ghost var shown, lengths := shard.Contents(), MovedLengths(shard, order);
    target := new Arena();
    items := [];
    ArenaRuns.GrewNone(target);
    assert lengths[..0] == [];
    assert MovedTo(target.layout, [], order, shown) by { MovedNone(target.layout, order, shown); }
    for j := 0 to |order|
      invariant fresh(target) && target.Valid() && |items| == j && |target.segments| <= j
      invariant MovedTo(target.layout, items, order, shown)
      invariant ArenaRuns.Grew(target, EmptyShape(), 0, lengths[..j]) && target.free == None
      modifies target
    {
      ghost var L := target.layout;
      ArenaRuns.PrefixSnoc(lengths, j);
      var x := MoveOne(shard, target, order[j], lengths[..j]);
      ArenaRuns.GrewValid(target, EmptyShape(), 0, lengths[..j + 1]);
      MovedNext(L, target.layout, items, order, shown, x);
      items := items + [x];
    }
    assert lengths[..|order|] == lengths;
    GrewBytes(target, lengths);
  }

  lemma GrewBytes(arena: Arena, done: seq<nat>)
    requires (forall i :: 0 <= i < |done| ==> done[i] + 8 <= MAX_BLOCK) && ArenaRuns.Grew(arena, EmptyShape(), 0, done)
    requires arena.free == None
    ensures arena.TotalMemoryBytes() == TotalGrowth(EmptyShape(), done)
  {
  }

  lemma MovedFits(L: Layout, items: seq<Moved>, order: seq<Key>, shown: map<Key, Stored>)
    requires MovedTo(L, items, order, shown)
    ensures forall i :: 0 <= i < |items| ==> EntryPack.Fits(items[i].entry)
  {
    hide Holds, EntryPack.Fits;
  }

  lemma MovedNone(L: Layout, order: seq<Key>, shown: map<Key, Stored>)
    ensures MovedTo(L, [], order, shown)
  {
  }

  lemma InlineLength(arena: Arena, ref: Ref)
    requires arena.View(ref).Some?
    ensures ref.IsInline() ==> 1 <= |arena.View(ref).value| <= 8
  {
  }

  lemma ItemGood(L: Layout, p: Packed, ref: Ref, v: seq<byte>, meta: Option<Meta>)
    requires p.location < TWO64 && p.meta < TWO64 && Holds(L, ref, v) && ref.generation < TWO19 && ref.location < TWO64
    ensures GoodItem(L, Moved(Unpack(p).(ref := ref), meta), Shows(v, Unpack(p), meta))
  {
    hide Holds;
    UnpackRoundTrip(p);
  }

  // ---- the rebuilt lists ----

  /** The new index, entries and metadata of the moved items. */
  method Rebuild(items: seq<Moved>, order: seq<Key>, sidecar: bool)
    returns (index: map<Key, nat>, entries: seq<Packed>, metas: Option<seq<Option<Meta>>>)
    requires |items| == |order| && (forall i :: 0 <= i < |items| ==> EntryPack.Fits(items[i].entry))
    requires forall i, j :: 0 <= i < j < |order| ==> order[i] != order[j]
    ensures |entries| == |order| && (metas.Some? <==> sidecar) && (metas.Some? ==> |metas.value| == |order|)
    ensures index.Keys == set k | k in order
    ensures forall i :: 0 <= i < |order| ==> order[i] in index && index[order[i]] == i
    ensures forall i :: 0 <= i < |order| ==>
      Unpack(entries[i]) == items[i].entry && entries[i].location < TWO64 && entries[i].meta < TWO64
    ensures metas.Some? ==> forall i :: 0 <= i < |order| ==> metas.value[i] == items[i].meta
  {
    hide Pack, Unpack, EntryPack.Fits;
    index, entries := map[], [];
    var slots: seq<Option<Meta>> := [];
    for j := 0 to |items|
      invariant |entries| == |slots| == j
      invariant forall k :: k in index <==> k in order[..j]
      invariant forall i :: 0 <= i < j ==> order[i] in index && index[order[i]] == i
      invariant forall i :: 0 <= i < j ==>
        Unpack(entries[i]) == items[i].entry && entries[i].location < TWO64 && entries[i].meta < TWO64
      invariant forall i :: 0 <= i < j ==> slots[i] == items[i].meta
    {
      PackRoundTrip(items[j].entry);
      assert order[..j + 1] == order[..j] + [order[j]];
      entries := entries + [Pack(items[j].entry).value];
      slots := slots + [items[j].meta];
      index := index[order[j] := j];
    }
    assert order[..|order|] == order;
    metas := if sidecar then Some(slots) else None;
  }

  /** A key reads from the rebuilt lists as it should. */
  ghost predicate ReadsAs(target: Arena, index: map<Key, nat>, entries: seq<Packed>, metas: Option<seq<Option<Meta>>>,
                          k: Key, s: Stored)
    reads target
    requires k in index && index[k] < |entries| && (metas.Some? ==> |metas.value| == |entries|)
  {
    var e := Unpack(entries[index[k]]);
    target.View(e.ref) == Some(s.bytes) && Shows(s.bytes, e, if metas.Some? then metas.value[index[k]] else None) == s
  }

  lemma RebuiltReads(target: Arena, items: seq<Moved>, order: seq<Key>, index: map<Key, nat>, entries: seq<Packed>,
                     metas: Option<seq<Option<Meta>>>, shown: map<Key, Stored>, k: Key)
    requires target.Valid() && |items| == |order| == |entries| && MovedTo(target.layout, items, order, shown)
    requires (metas.Some? ==> |metas.value| == |entries|) && k in order && k in index
    requires forall i :: 0 <= i < |order| ==>
      order[i] in index && index[order[i]] == i && Unpack(entries[i]) == items[i].entry
    requires forall i :: 0 <= i < |order| ==> items[i].meta == if metas.Some? then metas.value[i] else None
    ensures k in shown && index[k] < |entries| && ReadsAs(target, index, entries, metas, k, shown[k])
  {
    hide Arena.Valid, Holds, Arena.View, Unpack, EntryPack.Fits;
    var i :| 0 <= i < |order| && order[i] == k;
    assert GoodItem(target.layout, items[i], shown[order[i]]);
    HoldsView(target, items[i].entry.ref, shown[k].bytes);
  }

  lemma RebuiltAll(target: Arena, items: seq<Moved>, order: seq<Key>, index: map<Key, nat>, entries: seq<Packed>,
                   metas: Option<seq<Option<Meta>>>, shown: map<Key, Stored>)
    requires target.Valid() && |items| == |order| == |entries| && MovedTo(target.layout, items, order, shown)
    requires (metas.Some? ==> |metas.value| == |entries|) && index.Keys == set k | k in order
    requires forall i :: 0 <= i < |order| ==>
      order[i] in index && index[order[i]] == i && Unpack(entries[i]) == items[i].entry
    requires forall i :: 0 <= i < |order| ==> items[i].meta == if metas.Some? then metas.value[i] else None
    ensures forall k :: k in index ==>
      k in shown && index[k] < |entries| && ReadsAs(target, index, entries, metas, k, shown[k])
  {
    hide Arena.Valid, MovedTo, ReadsAs, Unpack;
    forall k | k in index
      ensures k in shown && index[k] < |entries| && ReadsAs(target, index, entries, metas, k, shown[k])
    {
      RebuiltReads(target, items, order, index, entries, metas, shown, k);
    }
  }

  lemma SameKeys(shard: Shard, order: seq<Key>)
    requires shard.Valid() && Lists(order, shard.index)
    ensures shard.Contents().Keys == (set k | k in order)
  {
    hide Arena.Valid, Arena.View, Unpack;
  }

  /** Puts the rebuilt parts into the shard. */
  method Install(shard: Shard, target: Arena, index: map<Key, nat>, entries: seq<Packed>,
                 metas: Option<seq<Option<Meta>>>, ghost shown: map<Key, Stored>)
    requires target.Valid() && index.Keys == shown.Keys && (metas.Some? ==> |metas.value| == |entries|)
    requires forall i :: 0 <= i < |entries| ==> entries[i].location < TWO64 && entries[i].meta < TWO64
    requires forall k :: k in index ==> index[k] < |entries| && ReadsAs(target, index, entries, metas, k, shown[k])
    modifies shard
    ensures shard.Valid() && shard.Contents() == shown
    ensures shard.arena == target && shard.index == index && shard.entries == entries && shard.metas == metas
  {
    hide Arena.Valid, Arena.View, Unpack;
    shard.arena, shard.index, shard.entries, shard.metas := target, index, entries, metas;
    forall k | k in index
      ensures target.View(shard.EntryOf(k).ref) == Some(shown[k].bytes)
      ensures Shows(shown[k].bytes, shard.EntryOf(k), shard.MetaOf(k)) == shown[k]
    {
      assert ReadsAs(target, index, entries, metas, k, shown[k]);
    }
  }

  /** Compacts a shard through a fresh arena, index and entry list: unless the limit refuses the result,
      every key shows what it showed before, and the entries are dense. */
  method Compact(shard: Shard, order: seq<Key>, limit: Option<nat>) returns (done: bool)
    requires shard.Valid() && Lists(order, shard.index) && |order| <= MAX_SEGMENTS
    requires forall k :: k in shard.index ==> |shard.Encoded(k)| + 8 <= MAX_BLOCK
    modifies shard
    ensures shard.Valid() && shard.Contents() == old(shard.Contents())
    ensures !done ==> unchanged(shard)
    ensures forall i :: 0 <= i < |order| ==> old(MovedLengths(shard, order))[i] + 8 <= MAX_BLOCK
    ensures done <==> limit.None? || TotalGrowth(EmptyShape(), old(MovedLengths(shard, order))) <= limit.value
    ensures done ==> fresh(shard.arena) && |shard.entries| == |shard.index|
    ensures done ==> shard.arena.TotalMemoryBytes() == TotalGrowth(EmptyShape(), old(MovedLengths(shard, order)))
  {
    hide TotalGrowth, MovedLengths, Shard.EntryOf, Shard.MetaOf, Shard.Encoded, Arena.MemoryBytes, Arena.Valid, Holds,
      Arena.View, Unpack, EntryPack.Fits, Arena.TotalMemoryBytes, ReadsAs, MovedTo, Shard.Contents;
    ghost var shown := shard.Contents();
    var target, items := MoveAll(shard, order);
    MovedFits(target.layout, items, order, shown);
    var index, entries, metas := Rebuild(items, order, shard.metas.Some?);
    if limit.Some? && target.TotalMemoryBytes() > limit.value { return false; }
    Finish(shard, target, items, order, index, entries, metas);
    return true;
  }

  /** Puts the moved items in the place of the shard's. */
  method Finish(shard: Shard, target: Arena, items: seq<Moved>, order: seq<Key>, index: map<Key, nat>,
                entries: seq<Packed>, metas: Option<seq<Option<Meta>>>)
    requires shard.Valid() && target.Valid() && Lists(order, shard.index) && |items| == |order| == |entries|
    requires MovedTo(target.layout, items, order, shard.Contents()) && index.Keys == (set k | k in order)
    requires (metas.Some? <==> shard.metas.Some?) && (metas.Some? ==> |metas.value| == |order|)
    requires forall i :: 0 <= i < |order| ==> order[i] in index && index[order[i]] == i
    requires forall i :: 0 <= i < |order| ==>
      Unpack(entries[i]) == items[i].entry && entries[i].location < TWO64 && entries[i].meta < TWO64
    requires metas.Some? ==> forall i :: 0 <= i < |order| ==> metas.value[i] == items[i].meta
    modifies shard
    ensures shard.Valid() && shard.Contents() == old(shard.Contents())
    ensures shard.arena == target && |shard.entries| == |shard.index|
  {
    hide Shard.EntryOf, Shard.MetaOf, Shard.Encoded, Arena.Valid, Arena.View, Unpack, ReadsAs, MovedTo, Shard.Contents;
    ghost var shown := shard.Contents();
    if shard.metas.None? { NoMetas(shard, items, order, target.layout); }
    RebuiltAll(target, items, order, index, entries, metas, shown);
    SameKeys(shard, order);
    KeysSize(index, order);
    Install(shard, target, index, entries, metas, shown);
  }

  /** Without a metadata list no item has metadata. */
  lemma NoMetas(shard: Shard, items: seq<Moved>, order: seq<Key>, L: Layout)
    requires shard.Valid() && shard.metas.None? && |items| == |order| && MovedTo(L, items, order, shard.Contents())
    ensures forall i :: 0 <= i < |order| ==> items[i].meta == None
  {
    hide Arena.Valid, Holds, Arena.View, Unpack, EntryPack.Fits;
    forall i | 0 <= i < |order|
      ensures items[i].meta == None
    {
      assert GoodItem(L, items[i], shard.Contents()[order[i]]);
    }
  }

  lemma {:induction false} KeysSize(index: map<Key, nat>, order: seq<Key>)
    requires index.Keys == (set k | k in order) && forall i, j :: 0 <= i < j < |order| ==> order[i] != order[j]
    ensures |index| == |order|
  {
    DistinctSize(order);
    assert |index| == |index.Keys|;
  }

  lemma {:induction false} DistinctSize(order: seq<Key>)
    requires forall i, j :: 0 <= i < j < |order| ==> order[i] != order[j]
    ensures |set k | k in order| == |order|
  {
    if order != [] {
      var n := |order| - 1;
      DistinctSize(order[..n]);
      assert order == order[..n] + [order[n]];
      assert (set k | k in order) == (set k | k in order[..n]) + {order[n]};
    }
  }
}
