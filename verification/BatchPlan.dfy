/** The batch planner: the arena growth charged for a batch over many shards is the growth that the
    batch then causes. */
module BatchPlan {
  import opened Words
  import opened Sums
  import opened ArenaSizing
  import opened ArenaLayout
  import opened ArenaAllocator
  import opened ArenaRefs
  import opened ArenaRuns

  /** A prepared value and its shard; short scalars live inside the reference. */
  datatype Item = Item(shard: nat, data: seq<byte>, scalar: bool)

  predicate Inline(x: Item) { x.scalar && 1 <= |x.data| <= 8 }

  /** The length the planner counts for an item: nothing for an inline one. */
  function Planned(x: Item): nat { if Inline(x) then 0 else |x.data| }

  ghost predicate Batch(items: seq<Item>, n: nat)
  {
    && (forall i :: 0 <= i < |items| ==> items[i].shard < n && |items[i].data| + 8 <= MAX_BLOCK)
    && (forall i, j :: 0 <= i < j < |items| ==> items[i].shard <= items[j].shard)
  }

  /** The planned lengths of one shard's items, in order. */
  function Lens(items: seq<Item>, s: nat): (r: seq<nat>)
  {
    if items == [] then []
    else Lens(items[..|items| - 1], s) + if items[|items| - 1].shard == s then [Planned(items[|items| - 1])] else []
  }

  lemma {:induction false} LensFit(items: seq<Item>, s: nat)
    requires forall i :: 0 <= i < |items| ==> |items[i].data| + 8 <= MAX_BLOCK
    ensures forall i :: 0 <= i < |Lens(items, s)| ==> Lens(items, s)[i] + 8 <= MAX_BLOCK
  {
    if items != [] { LensFit(items[..|items| - 1], s); }
  }

  lemma LensNext(items: seq<Item>, s: nat, i: nat)
    requires i < |items|
    ensures Lens(items[..i + 1], s) == Lens(items[..i], s) + if items[i].shard == s then [Planned(items[i])] else []
  {
    assert items[..i + 1][..i] == items[..i];
  }

  ghost predicate Shapely(shapes: seq<Shape>)
  {
    forall s :: 0 <= s < |shapes| ==> |shapes[s].frees| == BUCKETS
  }

  ghost predicate Fit(items: seq<Item>)
  {
    forall i :: 0 <= i < |items| ==> |items[i].data| + 8 <= MAX_BLOCK
  }

  /** What one shard's items cost its arena. */
  ghost function Cost(shape: Shape, items: seq<Item>, s: nat): nat
    requires |shape.frees| == BUCKETS && Fit(items)
  {
    LensFit(items, s);
    TotalGrowth(shape, Lens(items, s))
  }

  /** What a batch costs each arena. */
  ghost function Costs(shapes: seq<Shape>, items: seq<Item>): (r: seq<int>)
    requires Shapely(shapes) && Fit(items)
    ensures |r| == |shapes|
  {
    seq(|shapes|, s requires 0 <= s < |shapes| => Cost(shapes[s], items, s))
  }

  // ---- planning ----

  ghost predicate AllValid(arenas: seq<Arena>)
    reads arenas
  {
    forall s :: 0 <= s < |arenas| ==> arenas[s].Valid()
  }

  ghost function Shapes(arenas: seq<Arena>): (r: seq<Shape>)
    reads arenas
    ensures |r| == |arenas| && forall s :: 0 <= s < |arenas| ==> r[s] == arenas[s].ShapeOf()
  {
    seq(|arenas|, s requires 0 <= s < |arenas| reads arenas => arenas[s].ShapeOf())
  }

  lemma ShapesOk(arenas: seq<Arena>)
    requires AllValid(arenas)
    ensures Shapely(Shapes(arenas))
  {
  }

  /** The items before `start` all belong to lower shards. */
  ghost predicate Boundary(items: seq<Item>, start: nat)
    requires start <= |items|
  {
    forall i, j :: 0 <= i < start <= j < |items| ==> items[i].shard < items[j].shard
  }

  /** The run of items of one shard, and their planned lengths. */
  method NextGroup(items: seq<Item>, n: nat, start: nat) returns (end: nat, lens: seq<nat>)
    requires Batch(items, n) && start < |items| && Boundary(items, start)
    ensures start < end <= |items| && Boundary(items, end)
    ensures lens == Lens(items[..end], items[start].shard) && Lens(items[..start], items[start].shard) == []
    ensures forall t :: t != items[start].shard ==> Lens(items[..end], t) == Lens(items[..start], t)
  {
    hide Lens, Planned;
    var s := items[start].shard;
    LensBelow(items[..start], s);
    end, lens := start, [];
    while end < |items| && items[end].shard == s
      invariant start <= end <= |items| && (forall i :: start <= i < end ==> items[i].shard == s)
      invariant lens == Lens(items[..end], s)
      invariant forall t :: t != s ==> Lens(items[..end], t) == Lens(items[..start], t)
    {
      forall t
        ensures Lens(items[..end + 1], t) ==
          Lens(items[..end], t) + if items[end].shard == t then [Planned(items[end])] else []
      {
        LensNext(items, t, end);
      }
      lens := lens + [Planned(items[end])];
      end := end + 1;
    }
  }

  lemma {:induction false} LensBelow(items: seq<Item>, s: nat)
    requires forall i :: 0 <= i < |items| ==> items[i].shard < s
    ensures Lens(items, s) == []
  {
    if items != [] { LensBelow(items[..|items| - 1], s); }
  }

  lemma CostsNext(shapes: seq<Shape>, a: seq<Item>, b: seq<Item>, s: nat)
    requires Shapely(shapes) && Fit(a) && Fit(b) && s < |shapes|
    requires Lens(a, s) == [] && forall t :: t != s ==> Lens(b, t) == Lens(a, t)
    ensures Sum(Costs(shapes, b)) == Sum(Costs(shapes, a)) + Cost(shapes[s], b, s)
  {
    hide Lens, TotalGrowth, Sum;
    assert Cost(shapes[s], a, s) == 0 by { NoCost(shapes[s], a, s); }
    SumUpdate(Costs(shapes, a), s, Cost(shapes[s], b, s));
    assert Costs(shapes, b) == Costs(shapes, a)[s := Cost(shapes[s], b, s)];
  }

  lemma NoCost(shape: Shape, items: seq<Item>, s: nat)
    requires |shape.frees| == BUCKETS && Fit(items) && Lens(items, s) == []
    ensures Cost(shape, items, s) == 0
  {
  }

  /** The arena growth of a batch, planned group by group before anything changes. */
  method Plan(arenas: seq<Arena>, items: seq<Item>) returns (growth: nat)
    requires AllValid(arenas) && Batch(items, |arenas|)
    ensures Shapely(Shapes(arenas)) && Fit(items) && growth == Sum(Costs(Shapes(arenas), items))
  {
    hide Lens, Sum, TotalGrowth, ShapeStep;
    ShapesOk(arenas);
    ghost var shapes := Shapes(arenas);
    growth := 0;
    var start := 0;
    assert items[..0] == [];
    NoCosts(shapes);
    while start < |items|
      invariant 0 <= start <= |items| && Boundary(items, start) && growth == Sum(Costs(shapes, items[..start]))
    {
      var s := items[start].shard;
      var end, lens := NextGroup(items, |arenas|, start);
      LensFit(items[..end], s);
      var g := arenas[s].GrowthFor(lens);
      CostsNext(shapes, items[..start], items[..end], s);
      growth := growth + g;
      start := end;
    }
    assert items[..|items|] == items;
  }

  lemma NoCosts(shapes: seq<Shape>)
    requires Shapely(shapes)
    ensures Sum(Costs(shapes, [])) == 0
  {
    var c := Costs(shapes, []);
    forall s | 0 <= s < |c| ensures c[s] == 0 { NoCost(shapes[s], [], s); }
    SumZero(c);
  }

  // ---- allocating ----

  ghost predicate Apart(arenas: seq<Arena>)
  {
    forall i, j :: 0 <= i < j < |arenas| ==> arenas[i] != arenas[j]
  }

  ghost function Memory(arenas: seq<Arena>): (r: seq<nat>)
    reads arenas
    ensures |r| == |arenas| && forall s :: 0 <= s < |arenas| ==> r[s] == arenas[s].MemoryBytes()
  {
    seq(|arenas|, s requires 0 <= s < |arenas| reads arenas => arenas[s].MemoryBytes())
  }

  ghost function Layouts(arenas: seq<Arena>): (r: seq<Layout>)
    reads arenas
    ensures |r| == |arenas| && forall s :: 0 <= s < |arenas| ==> r[s] == arenas[s].layout
  {
    seq(|arenas|, s requires 0 <= s < |arenas| reads arenas => arenas[s].layout)
  }

  ghost predicate KeepAll(a: seq<Layout>, b: seq<Layout>)
  {
    |a| == |b| && forall s :: 0 <= s < |a| ==> Keeps(a[s], b[s])
  }

  /** The references of the first items read as their values, each in its own arena. */
  ghost predicate Read(layouts: seq<Layout>, refs: seq<Ref>, items: seq<Item>)
  {
    && |refs| <= |items|
    && forall i :: 0 <= i < |refs| ==>
         items[i].shard < |layouts| && Holds(layouts[items[i].shard], refs[i], items[i].data)
  }

  lemma ReadNone(layouts: seq<Layout>, items: seq<Item>)
    ensures Read(layouts, [], items)
  {
  }

  lemma ReadNext(a: seq<Layout>, b: seq<Layout>, refs: seq<Ref>, items: seq<Item>, ref: Ref)
    requires Read(a, refs, items) && KeepAll(a, b) && |refs| < |items|
    requires items[|refs|].shard < |b| && Holds(b[items[|refs|].shard], ref, items[|refs|].data)
    ensures Read(b, refs + [ref], items)
  {
    hide Keeps, Holds;
    forall i | 0 <= i < |refs| ensures Holds(b[items[i].shard], refs[i], items[i].data) {
      StillHolds(a[items[i].shard], b[items[i].shard], refs[i], items[i].data);
    }
  }

  lemma KeepAllOn(a: seq<Layout>, b: seq<Layout>, c: seq<Layout>)
    requires KeepAll(a, b) && KeepAll(b, c)
    ensures KeepAll(a, c)
  {
    hide Keeps;
    forall s | 0 <= s < |a| ensures Keeps(a[s], c[s]) { KeepsOn(a[s], b[s], c[s]); }
  }

  lemma KeepAllSame(a: seq<Layout>)
    ensures KeepAll(a, a)
  {
  }

  /** One arena after its share of the first `k` items. */
  ghost predicate GrewBy(arena: Arena, shape: Shape, base: nat, items: seq<Item>, k: nat, s: nat)
    reads arena
    requires |shape.frees| == BUCKETS && k <= |items| && Fit(items)
  {
    LensFit(items[..k], s);
    Grew(arena, shape, base, Lens(items[..k], s)) && |arena.segments| + |items| - k <= MAX_SEGMENTS
  }

  lemma PlannedIs(x: Item)
    ensures Planned(x) == if Inline(x) then 0 else |x.data|
  {
  }

  method PutNext(arenas: seq<Arena>, items: seq<Item>, k: nat, ghost shapes: seq<Shape>, ghost mems: seq<nat>)
    returns (ref: Ref)
    requires k < |items| && Fit(items) && items[k].shard < |arenas| == |shapes| == |mems| && Shapely(shapes)
    requires Apart(arenas)
    requires forall s :: 0 <= s < |arenas| ==> GrewBy(arenas[s], shapes[s], mems[s], items, k, s)
    modifies arenas[items[k].shard]
    ensures forall s :: 0 <= s < |arenas| ==> GrewBy(arenas[s], shapes[s], mems[s], items, k + 1, s)
    ensures KeepAll(old(Layouts(arenas)), Layouts(arenas)) && Holds(Layouts(arenas)[items[k].shard], ref, items[k].data)
  {
    hide Lens, Grew, Planned, Keeps, Holds;
    var x := items[k];
    LensFit(items[..k], x.shard);
    GrewValid(arenas[x.shard], shapes[x.shard], mems[x.shard], Lens(items[..k], x.shard));
    ref := PutValue(arenas[x.shard], Inline(x), x.data, shapes[x.shard], mems[x.shard], Lens(items[..k], x.shard));
    PlannedIs(x);
    forall s | 0 <= s < |arenas|
      ensures Keeps(old(Layouts(arenas))[s], Layouts(arenas)[s])
    {
      if s != x.shard {
        assert arenas[s] != arenas[x.shard];
        KeepsAll(arenas[s].layout);
      }
    }
    forall s | 0 <= s < |arenas|
      ensures GrewBy(arenas[s], shapes[s], mems[s], items, k + 1, s)
    {
      LensNext(items, s, k);
      if s != x.shard {
        assert arenas[s] != arenas[x.shard];
        assert old(GrewBy(arenas[s], shapes[s], mems[s], items, k, s));
        assert Lens(items[..k + 1], s) == Lens(items[..k], s) + [] == Lens(items[..k], s);
      }
    }
  }

  /** Allocates a batch; every arena grows by what its own items cost. */
  method Allocate(arenas: seq<Arena>, items: seq<Item>) returns (refs: seq<Ref>)
    requires AllValid(arenas) && Apart(arenas) && Batch(items, |arenas|) && Shapely(Shapes(arenas)) && Fit(items)
    requires forall s :: 0 <= s < |arenas| ==> |arenas[s].segments| + |items| <= MAX_SEGMENTS
    modifies arenas
    ensures AllValid(arenas) && |refs| == |items|
    ensures Sum(Memory(arenas)) == old(Sum(Memory(arenas))) + Sum(Costs(old(Shapes(arenas)), items))
    ensures KeepAll(old(Layouts(arenas)), Layouts(arenas)) && Read(Layouts(arenas), refs, items)
  {
    hide KeepAll, Read, Holds, Lens, Sum, Grew, Costs, Cost, GrewBy, TotalGrowth, Arena.MemoryBytes, Arena.ShapeOf;
    refs := [];
    KeepAllSame(Layouts(arenas));
    ReadNone(Layouts(arenas), items);
    ghost var shapes, mems := Shapes(arenas), Memory(arenas);
    forall s | 0 <= s < |arenas|
      ensures GrewBy(arenas[s], shapes[s], mems[s], items, 0, s)
    {
      GrewStart(arenas[s], items, s);
    }
    for k := 0 to |items|
      invariant |refs| == k && KeepAll(old(Layouts(arenas)), Layouts(arenas)) && Read(Layouts(arenas), refs, items)
      invariant forall s :: 0 <= s < |arenas| ==> GrewBy(arenas[s], shapes[s], mems[s], items, k, s)
    {
      ghost var layouts := Layouts(arenas);
      var ref := PutNext(arenas, items, k, shapes, mems);
      KeepAllOn(old(Layouts(arenas)), layouts, Layouts(arenas));
      ReadNext(layouts, Layouts(arenas), refs, items, ref);
      refs := refs + [ref];
    }
    forall s | 0 <= s < |arenas|
      ensures arenas[s].Valid() && arenas[s].MemoryBytes() == mems[s] + Cost(shapes[s], items, s)
    {
      GrewEnd(arenas[s], shapes[s], mems[s], items, s);
    }
    SumAdds(mems, Memory(arenas), shapes, items);
  }

  /** A batch over many shards: the planned growth is charged first, and allocating every item then grows
      the arenas by exactly that much; over the budget nothing is allocated. */
  method SetBatch(arenas: seq<Arena>, items: seq<Item>, budget: nat) returns (charged: nat, ok: bool, refs: seq<Ref>)
    requires AllValid(arenas) && Apart(arenas) && Batch(items, |arenas|)
    requires forall s :: 0 <= s < |arenas| ==> |arenas[s].segments| + |items| <= MAX_SEGMENTS
    modifies arenas
    ensures AllValid(arenas) && (ok <==> charged <= budget)
    ensures Shapely(old(Shapes(arenas))) && Fit(items) && charged == Sum(Costs(old(Shapes(arenas)), items))
    ensures ok ==> |refs| == |items| && Sum(Memory(arenas)) == old(Sum(Memory(arenas))) + charged
    ensures ok ==> KeepAll(old(Layouts(arenas)), Layouts(arenas))
    ensures ok ==> AllRead(arenas, refs, items)
    ensures !ok ==> refs == [] && forall s :: 0 <= s < |arenas| ==> unchanged(arenas[s])
  {
    hide Sum, Costs, Arena.MemoryBytes, Arena.ShapeOf, Arena.View, Arena.Valid, AllValid, AllRead, Read, KeepAll;
    charged := Plan(arenas, items);
    if charged > budget { return charged, false, []; }
    refs := Allocate(arenas, items);
    ReadViews(arenas, refs, items);
    ok := true;
  }

  /** Viewing each item's reference in its arena gives the item's bytes. */
  ghost predicate AllRead(arenas: seq<Arena>, refs: seq<Ref>, items: seq<Item>)
    reads arenas
  {
    && |refs| == |items|
    && forall i :: 0 <= i < |items| ==>
         items[i].shard < |arenas| && arenas[items[i].shard].View(refs[i]) == Some(items[i].data)
  }

  lemma ReadViews(arenas: seq<Arena>, refs: seq<Ref>, items: seq<Item>)
    requires AllValid(arenas) && |refs| == |items| && Read(Layouts(arenas), refs, items)
    ensures AllRead(arenas, refs, items)
  {
    hide Arena.View, Arena.Valid, Holds;
    forall i | 0 <= i < |items| ensures arenas[items[i].shard].View(refs[i]) == Some(items[i].data) {
      HoldsView(arenas[items[i].shard], refs[i], items[i].data);
    }
  }

  lemma GrewStart(arena: Arena, items: seq<Item>, s: nat)
    requires Fit(items) && arena.Valid() && |arena.segments| + |items| <= MAX_SEGMENTS
    ensures |arena.ShapeOf().frees| == BUCKETS && GrewBy(arena, arena.ShapeOf(), arena.MemoryBytes(), items, 0, s)
  {
    assert items[..0] == [];
  }

  lemma GrewEnd(arena: Arena, shape: Shape, base: nat, items: seq<Item>, s: nat)
    requires |shape.frees| == BUCKETS && Fit(items) && GrewBy(arena, shape, base, items, |items|, s)
    ensures arena.Valid() && arena.MemoryBytes() == base + Cost(shape, items, s)
  {
    hide Lens, TotalGrowth, ShapeRun, Arena.Valid;
    assert items[..|items|] == items;
  }

  lemma SumAdds(before: seq<nat>, after: seq<nat>, shapes: seq<Shape>, items: seq<Item>)
    requires |before| == |after| == |shapes| && Shapely(shapes) && Fit(items)
    requires forall s :: 0 <= s < |after| ==> after[s] == before[s] + Cost(shapes[s], items, s)
    ensures Sum(after) == Sum(before) + Sum(Costs(shapes, items))
  {
    hide Cost;
    SumPlus(before, Costs(shapes, items), after);
  }

  lemma {:induction false} SumPlus(a: seq<int>, b: seq<int>, c: seq<int>)
    requires |a| == |b| == |c| && forall i :: 0 <= i < |a| ==> c[i] == a[i] + b[i]
    ensures Sum(c) == Sum(a) + Sum(b)
  {
    if a != [] {
      var n := |a| - 1;
      SumPlus(a[..n], b[..n], c[..n]);
    }
  }
}
