/** The segmented arena allocator with generation-checked references. */
module ArenaAllocator {
  import opened Words
  import opened ArenaSizing
  import opened ArenaLayout

  const TWO14 := 0x4000
  const TWO18 := 0x4_0000
  const TWO26 := 0x400_0000
  const TWO39 := 0x80_0000_0000
  const FREE_TABLE_BYTES := BUCKETS * 8 + 24

  /** A reference is two words: a packed location (or the payload itself) and a generation word. */
  datatype Ref = Ref(location: nat, generation: nat)
  {
    function Segment(): nat { location / TWO39 % MAX_SEGMENTS }
    function Offset(): nat { location / TWO26 % SEGMENT_BYTES }
    function Length(): nat { location % TWO26 }
    predicate IsInline() { generation / TWO18 % 2 == 1 }

    /** The payload of an inline reference. */
    function InlineBytes(): Option<seq<byte>>
    {
      var n := generation / TWO14 % 16;
      if !IsInline() || n < 1 || n > 8 then None else Some(Le(location, 8)[..n])
    }
  }

  function NewRef(segment: nat, offset: nat, length: nat, generation: nat): Ref
  {
    Ref(segment * TWO39 + offset * TWO26 + length, generation)
  }

  /** The three location fields do not run into each other. */
  lemma RefFields(segment: nat, offset: nat, length: nat, generation: nat)
    requires segment < MAX_SEGMENTS && offset < SEGMENT_BYTES && length < TWO26
    ensures var r := NewRef(segment, offset, length, generation);
      r.Segment() == segment && r.Offset() == offset && r.Length() == length && r.location < TWO64
  {
  }

  function InlineRef(value: seq<byte>, step: nat): Ref
    requires 1 <= |value| <= 8
  {
    Ref(FromLe(value + Zeros(8 - |value|)), TWO18 + |value| * TWO14 + Generation(step) % TWO14)
  }

  /** An inline reference carries its payload, whatever generation it was given. */
  lemma InlineRoundTrip(value: seq<byte>, step: nat)
    requires 1 <= |value| <= 8
    ensures InlineRef(value, step).InlineBytes() == Some(value)
    ensures InlineRef(value, step).generation < 2 * TWO18 && InlineRef(value, step).location < TWO64
  {
    WordLimits();
    FromLeRoundTrip(value + Zeros(8 - |value|));
    assert (value + Zeros(8 - |value|))[..|value|] == value;
  }

  /** Two steps share a generation exactly when they are a multiple of the period apart. */
  lemma SameGeneration(t: nat, u: nat)
    requires 1 <= t <= u
    ensures Generation(t) == Generation(u) <==> (u - t) % PERIOD == 0
  {
  }

  datatype FreeTable = FreeTable(heads: seq<nat>, holes: seq<nat>)

  function Caps(segs: seq<Segment>): nat
  {
    if segs == [] then 0 else Caps(segs[..|segs| - 1]) + segs[|segs| - 1].cap
  }

  lemma {:induction false} CapsUpdate(segs: seq<Segment>, i: nat, s: Segment)
    requires i < |segs|
    ensures Caps(segs[i := s]) == Caps(segs) - segs[i].cap + s.cap
  {
    var n := |segs| - 1;
    if i < n {
      assert segs[i := s][..n] == segs[..n][i := s];
      CapsUpdate(segs[..n], i, s);
    } else {
      assert segs[i := s][..n] == segs[..n];
    }
  }

  function Lengths(lists: seq<seq<Addr>>): (r: seq<nat>)
    ensures |r| == |lists| && forall b :: 0 <= b < |lists| ==> r[b] == |lists[b]|
  {
    seq(|lists|, b requires 0 <= b < |lists| => |lists[b]|)
  }

  /** Room left in the last segment. */
  function Slack(segs: seq<Segment>): int
  {
    if segs == [] then 0 else segs[|segs| - 1].cap - |segs[|segs| - 1].data|
  }

  /** The part of the state that decides where the next blocks go. */
  datatype Shape = Shape(frees: seq<nat>, holes: nat, count: nat, capacity: nat, slack: int)

  function Doubled(capacity: nat): nat { if capacity == 0 then 1 else 2 * capacity }

  /** How reserving a block of class `k` changes the shape, `size` being the size of a new segment. */
  function Grown(s: Shape, k: Class, size: nat): Shape
    requires k.bucket < |s.frees|
  {
    if s.frees[k.bucket] > 0 then s.(frees := s.frees[k.bucket := s.frees[k.bucket] - 1])
    else if Dedicated(k.block) && s.holes > 0 then s.(holes := s.holes - 1)
    else if s.slack < k.block then
      s.(slack := size - k.block, count := s.count + 1,
         capacity := if s.count == s.capacity then Doubled(s.capacity) else s.capacity)
    else s.(slack := s.slack - k.block)
  }

  /** The memory that reservation takes from the Go heap. */
  function GrownBytes(s: Shape, k: Class, size: nat): nat
    requires k.bucket < |s.frees|
  {
    if s.frees[k.bucket] > 0 then 0
    else if Dedicated(k.block) && s.holes > 0 then k.block
    else if s.slack < k.block then
      size + (if s.count == s.capacity then (Doubled(s.capacity) - s.capacity) * SEGMENT_METADATA else 0)
    else 0
  }

  /** The class of a value and the size of a segment opened for it. */
  predicate Sized(n: nat, count: nat, k: Class, size: nat)
    requires n + 8 <= MAX_BLOCK
  {
    k == SizeClass(n) && k.block > 0 && size == SegmentSizeForAllocation(k.block, count)
  }

  lemma SizedSound(n: nat, count: nat, k: Class, size: nat)
    requires n + 8 <= MAX_BLOCK && Sized(n, count, k, size)
    ensures k.bucket < BUCKETS && 16 <= k.block && n + 8 <= k.block <= size
    ensures size <= SEGMENT_BYTES || size == k.block
    ensures k.bucket == DEDICATED_BUCKET <==> k.block > SEGMENT_BYTES
    ensures k.bucket != DEDICATED_BUCKET ==> k.block == BucketBlock(k.bucket)
    ensures Dedicated(k.block) ==> SegmentSizeForBlock(k.block) == k.block
  {
    SizeClassSound(n);
    SegmentSizeSound(k.block, count);
  }

  function ShapeStep(s: Shape, n: nat): (r: Shape)
    requires |s.frees| == BUCKETS && n + 8 <= MAX_BLOCK
    ensures |r.frees| == BUCKETS
  {
    if n == 0 then s else
    var k := SizeClass(n);
    SizeClassSound(n);
    Grown(s, k, SegmentSizeForAllocation(k.block, s.count))
  }

  function ShapeGrowth(s: Shape, n: nat): nat
    requires |s.frees| == BUCKETS && n + 8 <= MAX_BLOCK
  {
    if n == 0 then 0 else
    var k := SizeClass(n);
    SizeClassSound(n);
    GrownBytes(s, k, SegmentSizeForAllocation(k.block, s.count))
  }

  /** The shape of an arena that has allocated nothing. */
  function EmptyShape(): Shape { Shape(seq(BUCKETS, _ => 0), 0, 0, 0, Slack([])) }

  /** The shape after allocating values of the given lengths in order. */
  function ShapeRun(s: Shape, lengths: seq<nat>): (r: Shape)
    requires |s.frees| == BUCKETS && forall i :: 0 <= i < |lengths| ==> lengths[i] + 8 <= MAX_BLOCK
    ensures |r.frees| == BUCKETS
  {
    if lengths == [] then s
    else ShapeStep(ShapeRun(s, lengths[..|lengths| - 1]), lengths[|lengths| - 1])
  }

  /** The memory those allocations take. */
  function TotalGrowth(s: Shape, lengths: seq<nat>): nat
    requires |s.frees| == BUCKETS && forall i :: 0 <= i < |lengths| ==> lengths[i] + 8 <= MAX_BLOCK
  {
    if lengths == [] then 0
    else
      var n := |lengths| - 1;
      TotalGrowth(s, lengths[..n]) + ShapeGrowth(ShapeRun(s, lengths[..n]), lengths[n])
  }

  lemma StepNothing(s: Shape)
    requires |s.frees| == BUCKETS
    ensures ShapeStep(s, 0) == s && ShapeGrowth(s, 0) == 0
  {
  }

  lemma RunNone(s: Shape)
    requires |s.frees| == BUCKETS
    ensures ShapeRun(s, []) == s && TotalGrowth(s, []) == 0
  {
  }

  lemma RunSnoc(s: Shape, lengths: seq<nat>, n: nat)
    requires |s.frees| == BUCKETS && n + 8 <= MAX_BLOCK
    requires forall i :: 0 <= i < |lengths| ==> lengths[i] + 8 <= MAX_BLOCK
    ensures ShapeRun(s, lengths + [n]) == ShapeStep(ShapeRun(s, lengths), n)
    ensures TotalGrowth(s, lengths + [n]) == TotalGrowth(s, lengths) + ShapeGrowth(ShapeRun(s, lengths), n)
  {
    assert (lengths + [n])[..|lengths|] == lengths;
  }

  /** The reference that was handed out for ticket `t`. */
  function TicketRef(L: Layout, t: nat): Ref
    requires t in L.issued
  {
    var k := L.issued[t];
    NewRef(k.addr.seg, k.addr.off, k.length, Generation(t))
  }

  /** A reference that names no block is read without looking at the arena. */
  function SelfView(ref: Ref): Option<seq<byte>>
    requires ref.IsInline() || ref.generation == 0
  {
    if ref.IsInline() then ref.InlineBytes() else if ref.Length() == 0 then Some([]) else None
  }

  /** The planner's local copy of the allocator state. */
  datatype Plan = Plan(heads: seq<nat>, holes: nat, count: nat, capacity: nat, used: nat, size: nat)

  /** Every block but those of `gone` keeps its address and its size. */
  ghost predicate BlocksStay(L: Layout, L': Layout, gone: set<Addr>)
  {
    forall a :: a in L.blocks && a !in gone ==> a in L'.blocks && L'.blocks[a].size == L.blocks[a].size
  }

  lemma StayAll(L: Layout)
    ensures BlocksStay(L, L, {})
  {
  }

  lemma StayOn(L: Layout, M: Layout, N: Layout, gone: set<Addr>)
    requires BlocksStay(L, M, {}) && BlocksStay(M, N, gone)
    ensures BlocksStay(L, N, gone)
  {
  }

  /** Only the status of a block changes. */
  lemma StayAt(L: Layout, M: Layout, a: Addr)
    requires a in L.blocks && a in M.blocks && M.blocks == L.blocks[a := M.blocks[a]]
    requires M.blocks[a].size == L.blocks[a].size
    ensures BlocksStay(L, M, {})
  {
  }

  ghost predicate SameTickets(L: Layout, L': Layout)
  {
    L'.contents == L.contents && L'.issued == L.issued && L'.steps == L.steps && L'.table == L.table
  }

  class Arena {
    var segments: seq<Segment>
    var capacity: nat
    var free: Option<FreeTable>
    var generation: nat
    ghost var layout: Layout

    function Heads(): seq<nat>
      reads this
    {
      if free.Some? then free.value.heads else seq(BUCKETS, _ => 0)
    }

    function HolesList(): seq<nat>
      reads this
    {
      if free.Some? then free.value.holes else []
    }

    ghost function State(): Heap
      reads this
    {
      Heap(segments, Heads(), HolesList())
    }

    /** The invariant, with `r` the block that is between owners. */
    ghost predicate Ready(r: Option<Addr>)
      reads this
    {
      && Inv(State(), layout, r)
      && Classes(layout)
      && |segments| <= capacity
      && generation == Generation(layout.steps)
    }

    ghost predicate Valid()
      reads this
    {
      Ready(None)
    }

    ghost function RefOf(t: nat): Ref
      reads this
      requires t in layout.issued
    {
      TicketRef(layout, t)
    }

    function MemoryBytes(): nat
      reads this
    {
      capacity * SEGMENT_METADATA + Caps(segments)
    }

    function TotalMemoryBytes(): nat
      reads this
    {
      MemoryBytes() + if free.Some? then FREE_TABLE_BYTES else 0
    }

    function FreeGrowth(ref: Ref): nat
      reads this
    {
      if ref.IsInline() || ref.generation == 0 || free.Some? then 0 else FREE_TABLE_BYTES
    }

    ghost function ShapeOf(): Shape
      reads this
    {
      Shape(Lengths(layout.lists), |HolesList()|, |segments|, capacity, Slack(segments))
    }

    constructor ()
      ensures Valid() && layout.contents == map[] && layout.issued == map[] && layout.steps == 0
      ensures segments == [] && capacity == 0 && free == None
      ensures ShapeOf() == EmptyShape() && MemoryBytes() == 0
    {
      segments, capacity, free, generation := [], 0, None, 0;
      layout := Layout(map[], seq(BUCKETS, _ => []), map[], map[], 0,
        seq(BUCKETS, b requires 0 <= b => BucketBlock(b)));
      new;
      assert Lengths(layout.lists) == seq(BUCKETS, _ => 0);
    }

    /** The bytes behind a reference, or nothing when the reference is malformed or stale. */
    function View(ref: Ref): Option<seq<byte>>
      reads this
    {
      if ref.IsInline() || ref.generation == 0 then SelfView(ref)
      else if ref.Segment() >= |segments| then None
      else
        var data := segments[ref.Segment()].data;
        var start, end := ref.Offset(), ref.Offset() + 8 + ref.Length();
        if end > |data| || Word(data, start, 8) != ref.generation then None
        else Some(data[start + 8..end])
    }

    /** What a ticket's reference unpacks to. */
    lemma RefOfFields(t: nat)
      requires Valid() && t in layout.issued
      ensures var r, k := RefOf(t), layout.issued[t];
        && r.Segment() == k.addr.seg && r.Offset() == k.addr.off && r.Length() == k.length
        && r.generation == Generation(t) != 0 && !r.IsInline() && r.location < TWO64
        && k.addr.seg < |segments|
    {
      var k := layout.issued[t];
      assert Known(segments, layout, t);
      if k.addr in layout.blocks { OffsetFits(State(), layout, None, k.addr); }
      assert TicketClass(layout, t);
      RefFields(k.addr.seg, k.addr.off, k.length, Generation(t));
    }

    /** View of a live reference returns exactly the bytes it was allocated with. */
    lemma ViewLive(t: nat)
      requires Valid() && t in layout.contents
      ensures t in layout.issued && View(RefOf(t)) == Some(layout.contents[t])
    {
      assert Held(layout, t);
      RefOfFields(t);
      var a := layout.issued[t].addr;
      var size := layout.blocks[a].size;
      assert Filled(segments, layout, a);
      SliceOfSlice(segments[a.seg].data, a.off, a.off + size, 0, 8);
      SliceOfSlice(segments[a.seg].data, a.off, a.off + size, 8, 8 + |layout.contents[t]|);
    }

    /** Two live values never share a byte, and their offsets fit in 13 bits. */
    lemma LiveApart(t: nat, u: nat)
      requires Valid() && t in layout.contents && u in layout.contents && t != u
      ensures t in layout.issued && u in layout.issued
      ensures var a, b := layout.issued[t].addr, layout.issued[u].addr;
        && a in layout.blocks && b in layout.blocks && a.off < SEGMENT_BYTES && b.off < SEGMENT_BYTES
        && (a.seg == b.seg ==> a.off + layout.blocks[a].size <= b.off || b.off + layout.blocks[b].size <= a.off)
    {
      assert Held(layout, t) && Held(layout, u);
      var a, b := layout.issued[t].addr, layout.issued[u].addr;
      OffsetFits(State(), layout, None, a);
      OffsetFits(State(), layout, None, b);
      assert Disjoint(layout.blocks, a, b) && Disjoint(layout.blocks, b, a);
    }

    /** Entries of the free lists are distinct blocks, each of its bucket's one size, in segments that are
        not released, linked through their own bytes, and apart from every live value; the bucket of blocks
        above one segment has none. */
    lemma FreeListsSound(b: nat, i: nat, c: nat, j: nat, t: nat)
      requires Valid() && |layout.lists| == BUCKETS && b < BUCKETS && c < BUCKETS && i < |layout.lists[b]|
      requires j < |layout.lists[c]|
      ensures b != DEDICATED_BUCKET && ((b, i) != (c, j) ==> layout.lists[b][i] != layout.lists[c][j])
      ensures var a := layout.lists[b][i];
        && a.seg < |segments| && a.off + BucketBlock(b) <= |segments[a.seg].data| && 16 <= BucketBlock(b)
        && a.seg !in HolesList()
        && Word(segments[a.seg].data, a.off + 8, 8) == (if i == 0 then 0 else Link(layout.lists[b][i - 1]))
      ensures t in layout.contents ==> t in layout.issued && layout.issued[t].addr in layout.blocks
      ensures t in layout.contents ==>
        var a, live := layout.lists[b][i], layout.issued[t].addr;
        live.seg == a.seg ==> live.off + layout.blocks[live].size <= a.off || a.off + BucketBlock(b) <= live.off
    {
      hide BucketBlock;
      var a, other := layout.lists[b][i], layout.lists[c][j];
      assert Listed(layout, b, i) && Listed(layout, c, j);
      assert Owned(layout, a) && Owned(layout, other);
      assert BucketClass(layout, b);
      var size := layout.blocks[a].size;
      assert Filled(segments, layout, a);
      SliceOfSlice(segments[a.seg].data, a.off, a.off + size, 8, 16);
      if t in layout.contents {
        assert Held(layout, t);
        var live := layout.issued[t].addr;
        assert Disjoint(layout.blocks, live, a) && Disjoint(layout.blocks, a, live);
      }
    }

    /** The live ticket, if any, that now occupies the block of ticket `t`. */
    ghost function Occupant(t: nat): Option<nat>
      reads this
      requires t in layout.issued
    {
      var a := layout.issued[t].addr;
      if a in layout.blocks && layout.blocks[a].status.Live? then Some(layout.blocks[a].status.step) else None
    }

    /** A reference is accepted exactly when its block is now held by a ticket of the same generation. */
    lemma ViewAccepts(t: nat)
      requires Valid() && t in layout.issued
      ensures var k := layout.issued[t];
        View(RefOf(t)).Some? <==>
          && Occupant(t).Some? && (Occupant(t).value - t) % PERIOD == 0
          && k.addr.off + 8 + k.length <= |segments[k.addr.seg].data|
      ensures Occupant(t).Some? ==> t <= Occupant(t).value <= layout.steps
      ensures Occupant(t) == Some(t) <==> t in layout.contents
    {
      RefOfFields(t);
      assert Known(segments, layout, t);
      var a := layout.issued[t].addr;
      if t in layout.contents { assert Held(layout, t); }
      if a in layout.blocks {
        assert Filled(segments, layout, a) && Owned(layout, a);
        var size := layout.blocks[a].size;
        SliceOfSlice(segments[a.seg].data, a.off, a.off + size, 0, 8);
        if Occupant(t).Some? {
          var u := Occupant(t).value;
          assert Known(segments, layout, u);
          SameGeneration(t, u);
        }
      }
    }

    /** A reference whose block was freed is rejected, whatever reuse followed, for fewer than
        2^18 - 1 generation steps. */
    lemma ViewStale(t: nat)
      requires Valid() && t in layout.issued && t !in layout.contents
      requires layout.steps - t < PERIOD
      ensures View(RefOf(t)) == None
    {
      ViewAccepts(t);
      if Occupant(t).Some? {
        var d := Occupant(t).value - t;
        assert 0 < d < PERIOD;
        assert d % PERIOD == d;
      }
    }

    /** Takes the head of the bucket's free list. */
    method ReserveFromList(k: Class) returns (a: Addr)
      requires Valid() && free.Some? && k.bucket < BUCKETS && free.value.heads[k.bucket] != 0
      requires k.block == BucketBlock(k.bucket)
      modifies `free, `layout
      ensures Ready(Some(a)) && a in layout.blocks && layout.blocks[a].size == k.block && free.Some?
      ensures SameTickets(old(layout), layout) && BlocksStay(old(layout), layout, {})
      ensures old(ShapeOf().frees[k.bucket]) > 0
      ensures ShapeOf() == old(ShapeOf().(frees := ShapeOf().frees[k.bucket := ShapeOf().frees[k.bucket] - 1]))
    {
      hide Placed, Apart, Segments, Owners, Bytes, Contents, Tickets, Holes, BlocksStay;
      var b := k.bucket;
      var address := free.value.heads[b];
      assert layout.lists[b] != [];
      assert BucketClass(layout, b);
      EntryReads(State(), layout, None, b, |layout.lists[b]| - 1);
      PopKeeps(State(), layout, b);
      a := Addr(address / TWO32 - 1, address % TWO32);
      assert a == layout.lists[b][|layout.lists[b]| - 1];
      var next := Word(segments[a.seg].data, a.off + 8, 8);
      free := Some(free.value.(heads := free.value.heads[b := next]));
      ghost var before := layout;
      layout := PopLayout(layout, b);
      StayAt(before, layout, a);
      ClassesFrame(before, layout);
      assert Lengths(layout.lists) == Lengths(before.lists)[b := |before.lists[b]| - 1];
    }

    /** Gives a released segment slot new memory of exactly the block's size. */
    method ReserveFromHole(k: Class) returns (a: Addr)
      requires Valid() && free.Some? && free.value.holes != [] && Dedicated(k.block)
      requires SegmentSizeForBlock(k.block) == k.block
      modifies `segments, `free, `layout
      ensures Ready(Some(a)) && a in layout.blocks && layout.blocks[a].size == k.block && free.Some?
      ensures SameTickets(old(layout), layout) && BlocksStay(old(layout), layout, {})
      ensures ShapeOf() == old(ShapeOf().(holes := ShapeOf().holes - 1))
      ensures Caps(segments) == old(Caps(segments)) + k.block
    {
      hide Inv, Classes, Fresh, Caps, SegmentSizeForBlock, Lengths;
      var holes := free.value.holes;
      var seg := holes[|holes| - 1];
      a := Addr(seg, 0);
      HoleIsFresh(State(), layout, k.block);
      CapsUpdate(segments, seg, Segment(Zeros(k.block), SegmentSizeForBlock(k.block)));
      ghost var h, before := State(), layout;
      free := Some(free.value.(holes := holes[..|holes| - 1]));
      segments := segments[seg := Segment(Zeros(k.block), SegmentSizeForBlock(k.block))];
      layout := ReserveLayout(layout, a, k.block);
      ReserveKeeps(h, State(), before, a, k.block);
      ClassesFrame(before, layout);
    }

    /** Commits the next bytes of the last segment. */
    method ReserveInTail(k: Class) returns (a: Addr)
      requires Valid() && segments != [] && 16 <= k.block <= Slack(segments)
      modifies `segments, `layout
      ensures Ready(Some(a)) && a in layout.blocks && layout.blocks[a].size == k.block
      ensures SameTickets(old(layout), layout) && BlocksStay(old(layout), layout, {})
      ensures ShapeOf() == old(ShapeOf()).(slack := old(ShapeOf()).slack - k.block)
      ensures Caps(segments) == old(Caps(segments))
    {
      hide Classes, Placed, Apart, Segments, Owners, Bytes, Contents, Lists, Tickets, Fresh, Caps;
      ghost var h, before := State(), layout;
      var seg := |segments| - 1;
      var s := segments[seg];
      a := Addr(seg, |s.data|);
      TailIsFresh(h, before, seg, k.block);
      CapsUpdate(segments, seg, s.(data := s.data + Zeros(k.block)));
      segments := segments[seg := s.(data := s.data + Zeros(k.block))];
      layout := ReserveLayout(layout, a, k.block);
      ReserveKeeps(h, State(), before, a, k.block);
      ClassesFrame(before, layout);
    }

    /** Opens a new segment, doubling the descriptor array when it is full. */
    method ReserveInNew(k: Class, size: nat) returns (a: Addr)
      requires Valid() && |segments| < MAX_SEGMENTS
      requires 16 <= k.block <= size && (size <= SEGMENT_BYTES || size == k.block)
      modifies `segments, `capacity, `layout
      ensures Ready(Some(a)) && a in layout.blocks && layout.blocks[a].size == k.block
      ensures SameTickets(old(layout), layout) && BlocksStay(old(layout), layout, {})
      ensures var s := old(ShapeOf());
        ShapeOf() == s.(slack := size - k.block, count := s.count + 1,
                        capacity := if s.count == s.capacity then Doubled(s.capacity) else s.capacity)
      ensures Caps(segments) == old(Caps(segments)) + size
    {
      hide Classes, Placed, Apart, Owners, Bytes;
      ghost var h, before := State(), layout;
      if |segments| == capacity {
        capacity := Doubled(capacity);
      }
      a := Addr(|segments|, 0);
      segments := segments + [Segment(Zeros(k.block), size)];
      assert segments[..a.seg] == h.segs;
      layout := ReserveLayout(layout, a, k.block);
      NewIsFresh(h, k.block, size);
      ReserveKeeps(h, State(), before, a, k.block);
      ClassesFrame(before, layout);
    }

    /** Finds room for a block of class `k` that no free list holds: a hole, the tail of the last
        segment or a new segment. */
    method ReserveFresh(k: Class, size: nat) returns (a: Addr)
      requires Valid() && |segments| < MAX_SEGMENTS
      requires 16 <= k.block <= size && (size <= SEGMENT_BYTES || size == k.block)
      requires Dedicated(k.block) ==> SegmentSizeForBlock(k.block) == k.block
      requires k.bucket < |layout.lists| && layout.lists[k.bucket] == []
      modifies this
      ensures Ready(Some(a)) && a in layout.blocks && layout.blocks[a].size == k.block
      ensures SameTickets(old(layout), layout) && BlocksStay(old(layout), layout, {})
      ensures free.Some? == old(free.Some?) && generation == old(generation)
      ensures ShapeOf() == Grown(old(ShapeOf()), k, size)
      ensures MemoryBytes() == old(MemoryBytes()) + GrownBytes(old(ShapeOf()), k, size)
    {
      hide Inv, Classes, SameTickets;
      if Dedicated(k.block) && free.Some? && |free.value.holes| > 0 {
        a := ReserveFromHole(k);
      } else if segments == [] || segments[|segments| - 1].cap - |segments[|segments| - 1].data| < k.block {
        a := ReserveInNew(k, size);
      } else {
        a := ReserveInTail(k);
      }
    }

    /** Finds a block of class `k`. */
    method Reserve(k: Class, size: nat) returns (a: Addr)
      requires Valid() && |segments| < MAX_SEGMENTS && k.bucket < BUCKETS
      requires 16 <= k.block <= size && (size <= SEGMENT_BYTES || size == k.block)
      requires k.bucket != DEDICATED_BUCKET ==> k.block == BucketBlock(k.bucket)
      requires Dedicated(k.block) ==> SegmentSizeForBlock(k.block) == k.block
      modifies this
      ensures Ready(Some(a)) && a in layout.blocks && layout.blocks[a].size == k.block
      ensures SameTickets(old(layout), layout) && BlocksStay(old(layout), layout, {})
      ensures free.Some? == old(free.Some?) && generation == old(generation)
      ensures ShapeOf() == Grown(old(ShapeOf()), k, size)
      ensures MemoryBytes() == old(MemoryBytes()) + GrownBytes(old(ShapeOf()), k, size)
    {
      hide Classes, BlocksStay, SameTickets, Inv;
      HeadsEmpty(State(), layout, k.bucket);
      if free.Some? && free.value.heads[k.bucket] != 0 {
        a := ReserveFromList(k);
      } else {
        a := ReserveFresh(k, size);
      }
    }

    /** Everything but the size-class table. */
    ghost predicate Sound(r: Option<Addr>)
      reads this
    {
      Inv(State(), layout, r) && |segments| <= capacity && generation == Generation(layout.steps)
    }

    /** Stamps the next generation and copies the value into a reserved block. */
    method Commit(a: Addr, value: seq<byte>, ghost k: Class) returns (ref: Ref)
      requires Sound(Some(a)) && value != [] && |value| + 8 <= k.block == layout.blocks[a].size
      modifies `segments, `generation, `layout
      ensures Sound(None)
      ensures layout == CommitLayout(old(layout), a, value, k) && ref == RefOf(layout.steps)
      ensures |segments| == old(|segments|) && Slack(segments) == old(Slack(segments))
      ensures Caps(segments) == old(Caps(segments))
    {
      hide Placed, Apart, Segments, Owners, Bytes, Contents, Lists, Tickets, Holes;
      generation := NextGeneration(generation);
      NextGenerationCycles(layout.steps);
      var header := EncodeWord(generation);
      CommitKeeps(State(), layout, a, header, value, k);
      segments := WriteSegment(segments, a, header, value);
      layout := CommitLayout(layout, a, value, k);
      ref := NewRef(a.seg, a.off, |value|, generation);
    }

    /** Stores a value of a given class. */
    method AllocAs(value: seq<byte>, k: Class, size: nat) returns (ref: Ref)
      requires Valid() && value != [] && |value| + 8 <= k.block && |segments| < MAX_SEGMENTS && k.bucket < BUCKETS
      requires 16 <= k.block <= size && (size <= SEGMENT_BYTES || size == k.block)
      requires k.bucket != DEDICATED_BUCKET ==> k.block == BucketBlock(k.bucket)
      requires Dedicated(k.block) ==> SegmentSizeForBlock(k.block) == k.block
      modifies this
      ensures Sound(None) && free.Some? == old(free.Some?) && |segments| <= old(|segments|) + 1
      ensures layout.table == old(layout.table) && layout.steps == old(layout.steps) + 1
      ensures layout.contents == old(layout.contents)[layout.steps := value]
      ensures exists a :: layout.issued == old(layout.issued)[layout.steps := Ticket(a, |value|, k)]
      ensures BlocksStay(old(layout), layout, {})
      ensures ref == RefOf(layout.steps)
      ensures ShapeOf() == Grown(old(ShapeOf()), k, size)
      ensures MemoryBytes() == old(MemoryBytes()) + GrownBytes(old(ShapeOf()), k, size)
    {
      hide BlocksStay, Inv;
      var a := Reserve(k, size);
      ghost var M := layout;
      ref := Commit(a, value, k);
      StayAt(M, layout, a);
      StayOn(old(layout), M, layout, {});
    }

    lemma NextStep()
      requires Valid()
      ensures layout.steps + 1 !in layout.issued && |ShapeOf().frees| == BUCKETS && ShapeOf().count == |segments|
    {
      StepFresh(segments, layout);
    }

    /** Stores a value and returns a reference to it. */
    method Alloc(value: seq<byte>) returns (ref: Ref)
      requires Valid() && |value| + 8 <= MAX_BLOCK && |segments| < MAX_SEGMENTS
      modifies this
      ensures Valid() && free.Some? == old(free.Some?) && |segments| <= old(|segments|) + 1
      ensures value == [] ==> ref == Ref(0, 0) && layout == old(layout)
      ensures value != [] ==>
        && layout.steps == old(layout.steps) + 1
        && layout.contents == old(layout.contents)[layout.steps := value]
        && layout.issued.Keys == old(layout.issued.Keys) + {layout.steps}
        && (forall t :: t in old(layout.issued) ==> layout.issued[t] == old(layout.issued[t]))
        && ref == RefOf(layout.steps)
      ensures BlocksStay(old(layout), layout, {})
      ensures ShapeOf() == ShapeStep(old(ShapeOf()), |value|)
      ensures MemoryBytes() == old(MemoryBytes()) + ShapeGrowth(old(ShapeOf()), |value|)
    {
      hide Inv, Classes, SizeClass, SegmentSizeForAllocation, Grown, GrownBytes, BlocksStay, Arena.ShapeOf,
        Arena.MemoryBytes;
      NextStep();
      if value == [] {
        StayAll(layout);
        StepNothing(ShapeOf());
        return Ref(0, 0);
      }
      var k, size := Measure(|value|, |segments|);
      SizedSound(|value|, |segments|, k, size);
      ghost var before, s := layout, ShapeOf();
      ref := AllocAs(value, k, size);
      ShapeSized(s, |value|, k, size);
      IssuedClasses(before, layout, |value|, k);
    }

    /** A short value kept inside the reference itself still consumes a generation. */
    method AllocInline(value: seq<byte>) returns (ref: Option<Ref>)
      requires Valid()
      modifies `generation, `layout
      ensures Valid()
      ensures ref.Some? <==> 1 <= |value| <= 8
      ensures ref.None? ==> layout == old(layout)
      ensures ref.Some? ==> layout == old(layout).(steps := old(layout.steps) + 1)
      ensures ref.Some? ==> ref.value.IsInline() && SelfView(ref.value) == Some(value)
      ensures ref.Some? ==> ref.value.generation < 2 * TWO18 && ref.value.location < TWO64 && segments == old(segments)
      ensures ShapeOf() == old(ShapeOf())
    {
      if |value| == 0 || |value| > 8 {
        return None;
      }
      ghost var before := layout;
      generation := NextGeneration(generation);
      NextGenerationCycles(before.steps);
      ref := Some(Ref(FromLe(value + Zeros(8 - |value|)), TWO18 + |value| * TWO14 + generation % TWO14));
      layout := layout.(steps := layout.steps + 1);
      InlineRoundTrip(value, layout.steps);
      StepKeeps(State(), before);
    }

    /** A block that fills its segment gives the memory back and leaves a hole. */
    method ReleaseSegment(a: Addr)
      requires Sound(Some(a)) && free.Some? && a.off == 0 && layout.blocks[a].size == |segments[a.seg].data|
      modifies `segments, `free, `layout
      ensures Sound(None) && free.Some? && SameTickets(old(layout), layout) && |segments| == old(|segments|)
      ensures BlocksStay(old(layout), layout, {a})
      ensures MemoryBytes() + old(segments[a.seg].cap) == old(MemoryBytes())
    {
      ReleaseKeeps(State(), layout, a);
      CapsUpdate(segments, a.seg, Segment([], 0));
      segments := segments[a.seg := Segment([], 0)];
      free := Some(free.value.(holes := free.value.holes + [a.seg]));
      layout := ReleaseLayout(layout, a);
    }

    /** Any other block is marked free and pushed on its bucket's list. */
    method ParkBlock(a: Addr, b: nat)
      requires Sound(Some(a)) && free.Some? && b < BUCKETS && b != DEDICATED_BUCKET
      requires layout.blocks[a].size == layout.table[b]
      modifies `segments, `free, `layout
      ensures Sound(None) && free.Some? && SameTickets(old(layout), layout) && |segments| == old(|segments|)
      ensures BlocksStay(old(layout), layout, {})
      ensures MemoryBytes() == old(MemoryBytes())
    {
      hide Placed, Segments, Apart, Owners, Contents, Bytes, Holes, Tickets;
      var link := free.value.heads[b];
      LinkFits(State(), layout, Some(a), b);
      var header := EncodeWord(0);
      var next := EncodeWord(link);
      ParkKeeps(State(), layout, a, b, header, next);
      segments := WriteSegment(segments, a, header, next);
      free := Some(free.value.(heads := free.value.heads[b := Link(a)]));
      layout := ParkLayout(layout, a, b);
    }

    /** Releases a block of a given class. */
    method FreeAs(a: Addr, k: Class, ghost t: nat) returns (released: nat)
      requires Sound(None) && t in layout.contents && Held(layout, t) && layout.issued[t].addr == a
      requires layout.blocks[a].size == k.block
      requires k.bucket < BUCKETS && (k.bucket == DEDICATED_BUCKET ==> k.block > SEGMENT_BYTES)
      requires k.bucket != DEDICATED_BUCKET ==> k.block == layout.table[k.bucket]
      modifies `segments, `free, `layout
      ensures Sound(None) && free.Some? && |segments| == old(|segments|)
      ensures layout.contents == old(layout.contents) - {t} && layout.issued == old(layout.issued)
      ensures layout.steps == old(layout.steps) && layout.table == old(layout.table)
      ensures BlocksStay(old(layout), layout, if released > 0 then {a} else {})
      ensures released > 0 ==> Dedicated(released)
      ensures MemoryBytes() + released == old(MemoryBytes())
    {
      hide Placed, Apart, Segments, Owners, Bytes, Contents, Lists, Holes, Tickets, BlocksStay;
      RetireKeeps(State(), layout, t);
      ghost var L := layout;
      layout := RetireLayout(layout, t);
      ghost var M := layout;
      StayAt(L, M, a);
      OffsetFits(State(), layout, Some(a), a);
      if free.None? {
        free := Some(FreeTable(seq(BUCKETS, _ => 0), []));
      }
      var s := segments[a.seg];
      if Dedicated(k.block) && a.off == 0 && s.cap == k.block && |s.data| == k.block {
        released := s.cap;
        ReleaseSegment(a);
        StayOn(L, M, layout, {a});
      } else {
        released := 0;
        ParkBlock(a, k.bucket);
        StayOn(L, M, layout, {});
      }
    }

    /** Frees a reference; `t` is the ticket of the allocation it came from. */
    method Free(ref: Ref, ghost t: nat) returns (released: nat)
      requires Valid()
      requires ref.IsInline() || ref.generation == 0 || (t in layout.contents && t in layout.issued && ref == RefOf(t))
      modifies this
      ensures Valid() && layout.steps == old(layout.steps) && layout.issued == old(layout.issued)
      ensures |segments| == old(|segments|)
      ensures layout.contents ==
        if ref.IsInline() || ref.generation == 0 then old(layout.contents) else old(layout.contents) - {t}
      ensures BlocksStay(old(layout), layout, if released > 0 then {Addr(ref.Segment(), ref.Offset())} else {})
      ensures released > 0 ==> Dedicated(released)
      ensures TotalMemoryBytes() + released == old(TotalMemoryBytes()) + old(FreeGrowth(ref))
    {
      if ref.IsInline() || ref.generation == 0 {
        return 0;
      }
      RefOfFields(t);
      assert Held(layout, t) && TicketClass(layout, t);
      var k, size := Measure(ref.Length(), 0);
      SizedSound(ref.Length(), 0, k, size);
      if k.bucket != DEDICATED_BUCKET { assert BucketClass(layout, k.bucket); }
      ghost var before := layout;
      released := FreeAs(Addr(ref.Segment(), ref.Offset()), k, t);
      ClassesFrame(before, layout);
    }

    /** The planner's local state stands for a shape: every free list is cut down to the blocks not
        yet taken, and holes, counts and room agree. */
    ghost predicate Simulates(p: Plan, s: Shape)
      reads this
      requires |layout.lists| == BUCKETS
    {
      && |p.heads| == BUCKETS && |s.frees| == BUCKETS
      && (forall b :: 0 <= b < BUCKETS ==>
            s.frees[b] <= |layout.lists[b]| && p.heads[b] == Top(layout.lists[b][..s.frees[b]]))
      && s == Shape(s.frees, p.holes, p.count, p.capacity, p.size - p.used)
    }

    /** One simulated pop: following the link in the untouched arena gives the rest of the list. */
    lemma SimulatedPop(p: Plan, s: Shape, b: nat)
      requires Valid() && Simulates(p, s) && b < BUCKETS
      ensures p.heads[b] != 0 <==> s.frees[b] > 0
      ensures p.heads[b] != 0 ==>
        var a := Addr(p.heads[b] / TWO32 - 1, p.heads[b] % TWO32);
        && 0 <= p.heads[b] / TWO32 - 1 && a.seg < |segments| && a.off + 16 <= |segments[a.seg].data|
        && Simulates(p.(heads := p.heads[b := Word(segments[a.seg].data, a.off + 8, 8)]),
                     s.(frees := s.frees[b := s.frees[b] - 1]))
    {
      if s.frees[b] > 0 {
        var i := s.frees[b] - 1;
        assert layout.lists[b][..s.frees[b]][i] == layout.lists[b][i];
        EntryReads(State(), layout, None, b, i);
      }
    }

    /** The planner's step for one block of class `k`. */
    method PlanBlock(p: Plan, k: Class, size: nat, ghost s: Shape) returns (q: Plan, growth: nat)
      requires Valid() && Simulates(p, s) && k.bucket < BUCKETS && k.block > 0
      requires Dedicated(k.block) ==> SegmentSizeForBlock(k.block) == k.block
      ensures Simulates(q, Grown(s, k, size)) && growth == GrownBytes(s, k, size)
    {
      SimulatedPop(p, s, k.bucket);
      if p.heads[k.bucket] != 0 {
        var seg, off := p.heads[k.bucket] / TWO32 - 1, p.heads[k.bucket] % TWO32;
        return p.(heads := p.heads[k.bucket := Word(segments[seg].data, off + 8, 8)]), 0;
      }
      if Dedicated(k.block) && p.holes > 0 {
        return p.(holes := p.holes - 1), SegmentSizeForBlock(k.block);
      }
      q, growth := p, 0;
      if q.size - q.used < k.block {
        growth := size;
        if q.count == q.capacity {
          growth := growth + (Doubled(q.capacity) - q.capacity) * SEGMENT_METADATA;
          q := q.(capacity := Doubled(q.capacity));
        }
        q := q.(size := size, used := 0, count := q.count + 1);
      }
      q := q.(used := q.used + k.block);
    }

    /** Simulates the allocations without changing the arena. */
    method GrowthFor(lengths: seq<nat>) returns (growth: nat)
      requires Valid() && forall i :: 0 <= i < |lengths| ==> lengths[i] + 8 <= MAX_BLOCK
      ensures growth == TotalGrowth(ShapeOf(), lengths)
    {
      hide Inv, Classes, ShapeStep, ShapeGrowth, ShapeRun, TotalGrowth, Grown, GrownBytes, SizeClass;
      var p := Plan(Heads(), |HolesList()|, |segments|, capacity, 0, 0);
      if p.count > 0 {
        p := p.(used := |segments[p.count - 1].data|, size := segments[p.count - 1].cap);
      }
      growth := 0;
      WholeLists();
      RunNone(ShapeOf());
      assert lengths[..0] == [];
      for i := 0 to |lengths|
        invariant Simulates(p, ShapeRun(ShapeOf(), lengths[..i]))
        invariant growth == TotalGrowth(ShapeOf(), lengths[..i])
      {
        ghost var s := ShapeRun(ShapeOf(), lengths[..i]);
        assert lengths[..i + 1] == lengths[..i] + [lengths[i]];
        RunSnoc(ShapeOf(), lengths[..i], lengths[i]);
        StepNothing(s);
        if lengths[i] == 0 { continue; }
        var k, size := Measure(lengths[i], p.count);
        SizedSound(lengths[i], p.count, k, size);
        ShapeSized(s, lengths[i], k, size);
        var g;
        p, g := PlanBlock(p, k, size, s);
        growth := growth + g;
      }
      assert lengths[..|lengths|] == lengths;
    }

    lemma WholeLists()
      requires Valid()
      ensures |layout.lists| == |Heads()| == BUCKETS
      ensures forall b :: 0 <= b < BUCKETS ==> Heads()[b] == Top(layout.lists[b][..|layout.lists[b]|])
    {
      forall b | 0 <= b < BUCKETS ensures Heads()[b] == Top(layout.lists[b][..|layout.lists[b]|]) {
        assert layout.lists[b][..|layout.lists[b]|] == layout.lists[b];
      }
    }
  }

  /** A free-list head always fits the eight bytes it is stored in. */
  lemma LinkFits(h: Heap, L: Layout, r: Option<Addr>, b: nat)
    requires Inv(h, L, r) && b < BUCKETS
    ensures h.heads[b] < TWO64
  {
    if L.lists[b] != [] {
      var a := L.lists[b][|L.lists[b]| - 1];
      assert Listed(L, b, |L.lists[b]| - 1);
      OffsetFits(h, L, r, a);
    }
  }

  function NextGeneration(g: nat): nat
  {
    if g + 1 > PERIOD then 1 else g + 1
  }

  /** The counter cycles through 1..2^18-1 and never returns to zero. */
  lemma NextGenerationCycles(step: nat)
    ensures NextGeneration(Generation(step)) == Generation(step + 1)
  {
  }

  /** A zero head means an empty list, also before the free table exists. */
  lemma HeadsEmpty(h: Heap, L: Layout, b: nat)
    requires Inv(h, L, None) && b < BUCKETS
    ensures |h.heads| == |L.lists| == BUCKETS && (h.heads[b] == 0 <==> L.lists[b] == [])
    ensures b == DEDICATED_BUCKET ==> h.heads[b] == 0
  {
  }

  lemma IssuedClasses(L: Layout, L': Layout, n: nat, k: Class)
    requires Classes(L) && L'.table == L.table && n + 8 <= MAX_BLOCK && k == SizeClass(n)
    requires exists a :: L'.issued == L.issued[L'.steps := Ticket(a, n, k)]
    ensures Classes(L') && L'.issued.Keys == L.issued.Keys + {L'.steps}
    ensures forall t :: t in L.issued && t != L'.steps ==> L'.issued[t] == L.issued[t]
  {
    forall b | 0 <= b < BUCKETS ensures BucketClass(L', b) { assert BucketClass(L, b); }
    forall t | t in L'.issued ensures TicketClass(L', t) { if t != L'.steps { assert TicketClass(L, t); } }
  }

  method Measure(n: nat, count: nat) returns (k: Class, size: nat)
    requires n + 8 <= MAX_BLOCK
    ensures Sized(n, count, k, size)
  {
    SizeClassSound(n);
    var footprint := Footprint(n);
    if footprint <= 1024 { k := SmallClass(footprint); }
    else if footprint <= SEGMENT_BYTES / 2 { k := ComputeGeometric(footprint); }
    else { k := ComputeLarge(footprint); }
    size := SegmentSizeForAllocation(k.block, count);
  }

  lemma ShapeSized(s: Shape, n: nat, k: Class, size: nat)
    requires |s.frees| == BUCKETS && 0 < n && n + 8 <= MAX_BLOCK && Sized(n, s.count, k, size) && k.bucket < BUCKETS
    ensures ShapeStep(s, n) == Grown(s, k, size) && ShapeGrowth(s, n) == GrownBytes(s, k, size)
  {
  }

  /** WriteBlock keeps every segment's reserved size and committed length. */
  function WriteSegment(segs: seq<Segment>, a: Addr, header: seq<byte>, body: seq<byte>): (r: seq<Segment>)
    requires a.seg < |segs| && a.off + |header| + |body| <= |segs[a.seg].data|
    ensures r == WriteBlock(segs, a, header, body)
    ensures |r| == |segs| && Caps(r) == Caps(segs) && Slack(r) == Slack(segs)
  {
    var s := segs[a.seg];
    var data := Patch(Patch(s.data, a.off, header), a.off + |header|, body);
    CapsUpdate(segs, a.seg, s.(data := data));
    segs[a.seg := s.(data := data)]
  }

  /** A generation step that allocates no block. */
  lemma StepKeeps(h: Heap, L: Layout)
    requires Inv(h, L, None) && Classes(L)
    ensures Inv(h, L.(steps := L.steps + 1), None) && Classes(L.(steps := L.steps + 1))
  {
    var L' := L.(steps := L.steps + 1);
    ListsFrame(h.heads, L, L');
    ClassesFrame(L, L');
    forall c | c in L'.blocks
      ensures Owned(L', c) && Filled(h.segs, L', c)
    {
      assert Owned(L, c) && Filled(h.segs, L, c);
    }
    forall t | t in L'.contents ensures Held(L', t) { assert Held(L, t); }
    forall t | t in L'.issued ensures Known(h.segs, L', t) { assert Known(h.segs, L, t); }
  }

  /** Only segments of at most 8 KiB ever have room left, and a segment with room is no hole. */
  lemma TailIsFresh(h: Heap, L: Layout, seg: nat, block: nat)
    requires Inv(h, L, None) && seg < |h.segs| && 16 <= block <= h.segs[seg].cap - |h.segs[seg].data|
    ensures var s := h.segs[seg];
      Fresh(h, h.(segs := h.segs[seg := s.(data := s.data + Zeros(block))]), Addr(seg, |s.data|), block)
  {
    var s := h.segs[seg];
    var segs' := h.segs[seg := s.(data := s.data + Zeros(block))];
    assert |s.data| < s.cap && s.cap <= SEGMENT_BYTES;
    assert forall i :: 0 <= i < |h.holes| ==> h.holes[i] != seg;
  }

  /** The last hole can take a segment of one block. */
  lemma HoleIsFresh(h: Heap, L: Layout, block: nat)
    requires Inv(h, L, None) && h.holes != [] && Dedicated(block)
    ensures var n := |h.holes| - 1;
      var seg := h.holes[n];
      && seg < |h.segs| && h.segs[seg] == Segment([], 0)
      && Slack(h.segs[seg := Segment(Zeros(block), block)]) == Slack(h.segs)
      && Fresh(h, Heap(h.segs[seg := Segment(Zeros(block), block)], h.heads, h.holes[..n]), Addr(seg, 0), block)
  {
    hide Placed, Apart, Owners, Bytes, Contents, Lists, Tickets;
    var n := |h.holes| - 1;
    var seg := h.holes[n];
    var segs := h.segs[seg := Segment(Zeros(block), block)];
    assert forall i :: 0 <= i < n ==> h.holes[i] != seg && segs[h.holes[i]] == h.segs[h.holes[i]];
  }

  lemma NewIsFresh(h: Heap, block: nat, size: nat)
    requires Holes(h.segs, h.holes) && |h.segs| < MAX_SEGMENTS
    requires 16 <= block <= size && (size <= SEGMENT_BYTES || size == block)
    ensures Fresh(h, h.(segs := h.segs + [Segment(Zeros(block), size)]), Addr(|h.segs|, 0), block)
  {
  }

  lemma ClassesFrame(L: Layout, L': Layout)
    requires Classes(L) && L'.table == L.table && L'.issued == L.issued
    ensures Classes(L')
  {
    forall b | 0 <= b < BUCKETS ensures BucketClass(L', b) { assert BucketClass(L, b); }
    forall t | t in L'.issued ensures TicketClass(L', t) { assert TicketClass(L, t); }
  }
}
