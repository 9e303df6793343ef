/** What references read as while an arena goes on growing. */
module ArenaRefs {
  import opened Words
  import opened ArenaSizing
  import opened ArenaLayout
  import opened ArenaAllocator

  /** The reference reads as the value in every arena with this layout. */
  ghost predicate Holds(L: Layout, ref: Ref, v: seq<byte>)
  {
    || ((ref.IsInline() || ref.generation == 0) && SelfView(ref) == Some(v))
    || exists t :: t in L.contents && t in L.issued && ref == TicketRef(L, t) && L.contents[t] == v
  }

  /** Everything the first layout holds, the second holds too. */
  ghost predicate Keeps(L: Layout, M: Layout)
  {
    && (forall t :: t in L.contents ==> t in M.contents && M.contents[t] == L.contents[t])
    && (forall t :: t in L.issued ==> t in M.issued && M.issued[t] == L.issued[t])
  }

  lemma StillHolds(L: Layout, M: Layout, ref: Ref, v: seq<byte>)
    requires Holds(L, ref, v) && Keeps(L, M)
    ensures Holds(M, ref, v)
  {
    if !((ref.IsInline() || ref.generation == 0) && SelfView(ref) == Some(v)) {
      var t :| t in L.contents && t in L.issued && ref == TicketRef(L, t) && L.contents[t] == v;
      assert t in M.contents && t in M.issued && ref == TicketRef(M, t) && M.contents[t] == v;
    }
  }

  lemma HoldsView(arena: Arena, ref: Ref, v: seq<byte>)
    requires arena.Valid() && Holds(arena.layout, ref, v)
    ensures arena.View(ref) == Some(v)
  {
    if !((ref.IsInline() || ref.generation == 0) && SelfView(ref) == Some(v)) {
      ghost var L := arena.layout;
      var t :| t in L.contents && t in L.issued && ref == TicketRef(L, t) && L.contents[t] == v;
      arena.ViewLive(t);
    }
  }

  lemma NewTicket(arena: Arena)
    requires arena.Valid()
    ensures arena.layout.steps + 1 !in arena.layout.issued && arena.layout.steps + 1 !in arena.layout.contents
  {
    StepFresh(arena.segments, arena.layout);
    if arena.layout.steps + 1 in arena.layout.contents {
      arena.ViewLive(arena.layout.steps + 1);
      assert false;
    }
  }

  /** Allocates a block; its reference reads as the value, and every other one still reads as before. */
  method PutBlock(arena: Arena, v: seq<byte>) returns (ref: Ref)
    requires arena.Valid() && |v| + 8 <= MAX_BLOCK && |arena.segments| < MAX_SEGMENTS
    modifies arena
    ensures arena.Valid() && |arena.segments| <= old(|arena.segments|) + 1 && arena.free.Some? == old(arena.free.Some?)
    ensures Keeps(old(arena.layout), arena.layout) && Holds(arena.layout, ref, v) && ref.generation < 2 * TWO18
    ensures ref.location < TWO64
    ensures arena.ShapeOf() == ShapeStep(old(arena.ShapeOf()), |v|)
    ensures arena.MemoryBytes() == old(arena.MemoryBytes()) + ShapeGrowth(old(arena.ShapeOf()), |v|)
  {
    hide Arena.Valid, Arena.ShapeOf, Arena.MemoryBytes, ShapeStep, ShapeGrowth;
    NewTicket(arena);
    ref := arena.Alloc(v);
    if v != [] {
      ghost var t := arena.layout.steps;
      assert t in arena.layout.contents && t in arena.layout.issued && ref == TicketRef(arena.layout, t);
      arena.RefOfFields(t);
    }
  }

  /** Stores a short value inside its reference. */
  method PutInline(arena: Arena, v: seq<byte>) returns (ref: Ref)
    requires arena.Valid() && 1 <= |v| <= 8
    modifies arena
    ensures arena.Valid() && arena.segments == old(arena.segments) && arena.free == old(arena.free)
    ensures arena.ShapeOf() == old(arena.ShapeOf())
    ensures arena.MemoryBytes() == old(arena.MemoryBytes())
    ensures Keeps(old(arena.layout), arena.layout) && Holds(arena.layout, ref, v) && ref.generation < 2 * TWO18
    ensures ref.location < TWO64
  {
    hide Arena.Valid, Arena.ShapeOf;
    var r := arena.AllocInline(v);
    return r.value;
  }

  /** Every reference reads as its value. */
  ghost predicate AllHold(L: Layout, refs: seq<Ref>, values: seq<seq<byte>>)
  {
    |refs| == |values| && forall i :: 0 <= i < |refs| ==> Holds(L, refs[i], values[i])
  }

  lemma AllHoldNext(L: Layout, M: Layout, refs: seq<Ref>, values: seq<seq<byte>>, ref: Ref, v: seq<byte>)
    requires AllHold(L, refs, values) && Keeps(L, M) && Holds(M, ref, v)
    ensures AllHold(M, refs + [ref], values + [v])
  {
    hide Holds, Keeps;
    forall i | 0 <= i < |refs| ensures Holds(M, refs[i], values[i]) { StillHolds(L, M, refs[i], values[i]); }
  }

  lemma KeepsAll(L: Layout)
    ensures Keeps(L, L)
  {
  }

  lemma KeepsOn(L: Layout, M: Layout, N: Layout)
    requires Keeps(L, M) && Keeps(M, N)
    ensures Keeps(L, N)
  {
  }
}
