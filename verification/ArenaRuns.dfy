/** Whole runs of the arena: the planner charges exactly what is later allocated, and every run of
    stores, drops and reads answers as a list of plain byte strings would. */
module ArenaRuns {
  import opened Words
  import opened ArenaSizing
  import opened ArenaLayout
  import opened ArenaAllocator
  import opened ArenaRefs

  function LengthsOf(values: seq<seq<byte>>): (r: seq<nat>)
    ensures |r| == |values| && forall i :: 0 <= i < |values| ==> r[i] == |values[i]|
  {
    seq(|values|, i requires 0 <= i < |values| => |values[i]|)
  }

  /** The arena has allocated values of lengths `done` since it had shape `s` and memory `base`. */
  ghost predicate Grew(arena: Arena, s: Shape, base: nat, done: seq<nat>)
    reads arena
    requires |s.frees| == BUCKETS && forall i :: 0 <= i < |done| ==> done[i] + 8 <= MAX_BLOCK
  {
    && arena.Valid()
    && arena.ShapeOf() == ShapeRun(s, done)
    && arena.MemoryBytes() == base + TotalGrowth(s, done)
  }

  /** Puts a value into the arena, inside its reference or in a block; an inline value costs nothing. */
  method PutValue(arena: Arena, inline: bool, v: seq<byte>, ghost s: Shape, ghost base: nat, ghost done: seq<nat>)
    returns (ref: Ref)
    requires |s.frees| == BUCKETS && (forall i :: 0 <= i < |done| ==> done[i] + 8 <= MAX_BLOCK)
    requires (inline ==> 1 <= |v| <= 8)
    requires Grew(arena, s, base, done) && |v| + 8 <= MAX_BLOCK && |arena.segments| < MAX_SEGMENTS
    modifies arena
    ensures Grew(arena, s, base, done + [if inline then 0 else |v|])
    ensures |arena.segments| <= old(|arena.segments|) + 1 && arena.free.Some? == old(arena.free.Some?)
    ensures Keeps(old(arena.layout), arena.layout) && Holds(arena.layout, ref, v) && ref.generation < 2 * TWO18
    ensures ref.location < TWO64
  {
    hide Arena.Valid, Holds, Keeps, TotalGrowth, ShapeRun, Arena.ShapeOf, Arena.MemoryBytes;
    RunSnoc(s, done, if inline then 0 else |v|);
    if inline {
      StepNothing(ShapeRun(s, done));
      ref := PutInline(arena, v);
    } else {
      ref := PutBlock(arena, v);
    }
  }

  /** Allocates values in order; the memory grows by exactly what the shape predicts, every reference
      reads as its value, and earlier ones read as before. */
  method AllocateAll(arena: Arena, values: seq<seq<byte>>) returns (refs: seq<Ref>)
    requires arena.Valid() && |arena.segments| + |values| <= MAX_SEGMENTS
    requires forall i :: 0 <= i < |values| ==> |values[i]| + 8 <= MAX_BLOCK
    modifies arena
    ensures |refs| == |values| && arena.free.Some? == old(arena.free.Some?)
    ensures Grew(arena, old(arena.ShapeOf()), old(arena.MemoryBytes()), LengthsOf(values))
    ensures Keeps(old(arena.layout), arena.layout) && AllHold(arena.layout, refs, values)
  {
    hide Arena.Valid, Arena.ShapeOf, Arena.MemoryBytes, Keeps, Holds, ShapeRun, TotalGrowth;
    var lengths := LengthsOf(values);
    ghost var s, base := arena.ShapeOf(), arena.MemoryBytes();
    refs := [];
    KeepsAll(arena.layout);
    GrewNone(arena);
    assert lengths[..0] == [];
    for i := 0 to |values|
      invariant |refs| == i && Grew(arena, s, base, lengths[..i])
      invariant |arena.segments| + |values| - i <= MAX_SEGMENTS
      invariant Keeps(old(arena.layout), arena.layout) && AllHold(arena.layout, refs, values[..i])
      invariant arena.free.Some? == old(arena.free.Some?)
    {
      PrefixSnoc(lengths, i);
      PrefixSnoc(values, i);
      ghost var L := arena.layout;
      var ref := PutValue(arena, false, values[i], s, base, lengths[..i]);
      KeepsOn(old(arena.layout), L, arena.layout);
      AllHoldNext(L, arena.layout, refs, values[..i], ref, values[i]);
      refs := refs + [ref];
    }
    assert lengths[..|values|] == lengths && values[..|values|] == values;
  }

  lemma GrewNone(arena: Arena)
    requires arena.Valid()
    ensures |arena.ShapeOf().frees| == BUCKETS && Grew(arena, arena.ShapeOf(), arena.MemoryBytes(), [])
  {
  }

  lemma GrewValid(arena: Arena, s: Shape, base: nat, done: seq<nat>)
    requires |s.frees| == BUCKETS && (forall i :: 0 <= i < |done| ==> done[i] + 8 <= MAX_BLOCK)
    requires Grew(arena, s, base, done)
    ensures arena.Valid()
  {
  }

  lemma PrefixSnoc<T>(s: seq<T>, i: nat)
    requires i < |s|
    ensures s[..i + 1] == s[..i] + [s[i]]
  {
  }

  /** Plans a batch, then allocates it: the planned growth is the growth that happens. */
  method PlanThenAllocate(arena: Arena, values: seq<seq<byte>>) returns (planned: nat, refs: seq<Ref>)
    requires arena.Valid() && |arena.segments| + |values| <= MAX_SEGMENTS
    requires forall i :: 0 <= i < |values| ==> |values[i]| + 8 <= MAX_BLOCK
    modifies arena
    ensures arena.Valid() && |refs| == |values|
    ensures arena.MemoryBytes() == old(arena.MemoryBytes()) + planned
    ensures arena.TotalMemoryBytes() == old(arena.TotalMemoryBytes()) + planned
    ensures Keeps(old(arena.layout), arena.layout)
    ensures forall i :: 0 <= i < |refs| ==> arena.View(refs[i]) == Some(values[i])
  {
    hide Arena.View, Holds, Keeps;
    planned := arena.GrowthFor(LengthsOf(values));
    refs := AllocateAll(arena, values);
    forall i | 0 <= i < |refs| ensures arena.View(refs[i]) == Some(values[i]) { HoldsView(arena, refs[i], values[i]); }
  }

  // ---- runs ----

  datatype Op = Store(bytes: seq<byte>) | StoreInline(bytes: seq<byte>) | Drop(k: nat) | Read(k: nat)

  /** A handle as its owner sees it: the bytes, whether they live in a block, and if it was dropped. */
  datatype Cell = Cell(bytes: seq<byte>, block: bool, dropped: bool, born: nat)

  /** The reference machine: a growing list of cells and the number of generation steps taken. */
  datatype Model = Model(cells: seq<Cell>, steps: nat, stores: nat)

  predicate Legal(m: Model, op: Op)
  {
    match op
    case Store(v) => |v| + 8 <= MAX_BLOCK && m.stores < MAX_SEGMENTS
    case StoreInline(v) => true
    case Drop(k) => k < |m.cells| && !m.cells[k].dropped
    case Read(k) => k < |m.cells| && (m.cells[k].dropped ==> m.steps - m.cells[k].born < PERIOD)
  }

  function Next(m: Model, op: Op): Model
    requires Legal(m, op)
  {
    match op
    case Store(v) =>
      if v == [] then m.(cells := m.cells + [Cell(v, false, false, 0)], stores := m.stores + 1)
      else Model(m.cells + [Cell(v, true, false, m.steps + 1)], m.steps + 1, m.stores + 1)
    case StoreInline(v) =>
      if 1 <= |v| <= 8 then m.(cells := m.cells + [Cell(v, false, false, 0)], steps := m.steps + 1) else m
    case Drop(k) => m.(cells := m.cells[k := m.cells[k].(dropped := m.cells[k].block)])
    case Read(k) => m
  }

  /** What a read of a cell answers: the bytes, or nothing once its block was freed. */
  function Answer(c: Cell): Option<seq<byte>>
  {
    if c.dropped then None else Some(c.bytes)
  }

  predicate LegalRun(m: Model, ops: seq<Op>)
    decreases |ops|
  {
    ops == [] || (Legal(m, ops[0]) && LegalRun(Next(m, ops[0]), ops[1..]))
  }

  function Answers(m: Model, ops: seq<Op>): seq<Option<seq<byte>>>
    requires LegalRun(m, ops)
    decreases |ops|
  {
    if ops == [] then []
    else (if ops[0].Read? then [Answer(m.cells[ops[0].k])] else []) + Answers(Next(m, ops[0]), ops[1..])
  }

  /** A cell and the reference that stands for it. */
  ghost predicate Stands(L: Layout, c: Cell, ref: Ref)
  {
    if !c.block then !c.dropped && (ref.IsInline() || ref.generation == 0) && SelfView(ref) == Some(c.bytes)
    else
      && c.born in L.issued && ref == TicketRef(L, c.born) && c.born <= L.steps
      && (!c.dropped ==> c.born in L.contents && L.contents[c.born] == c.bytes)
      && (c.dropped ==> c.born !in L.contents)
  }

  ghost predicate AllStand(L: Layout, cells: seq<Cell>, refs: seq<Ref>)
  {
    && |refs| == |cells|
    && (forall i {:trigger Stands(L, cells[i], refs[i])} :: 0 <= i < |refs| ==> Stands(L, cells[i], refs[i]))
    && (forall i, j :: 0 <= i < j < |refs| && cells[i].block && cells[j].block ==> cells[i].born != cells[j].born)
  }

  ghost predicate Refines(arena: Arena, m: Model, refs: seq<Ref>)
    reads arena
  {
    && arena.Valid() && AllStand(arena.layout, m.cells, refs)
    && arena.layout.steps == m.steps && |arena.segments| <= m.stores
  }

  /** Storing a value leaves every older cell as it was. */
  lemma StoreStands(L: Layout, L': Layout, cells: seq<Cell>, refs: seq<Ref>, v: seq<byte>)
    requires AllStand(L, cells, refs) && v != [] && L'.steps == L.steps + 1
    requires L'.contents == L.contents[L'.steps := v] && L'.issued.Keys == L.issued.Keys + {L'.steps}
    requires forall t :: t in L.issued ==> L'.issued[t] == L.issued[t]
    requires L'.steps !in L.issued
    ensures AllStand(L', cells + [Cell(v, true, false, L'.steps)], refs + [TicketRef(L', L'.steps)])
  {
    var cells', refs' := cells + [Cell(v, true, false, L'.steps)], refs + [TicketRef(L', L'.steps)];
    forall i | 0 <= i < |refs|
      ensures Stands(L', cells[i], refs[i]) && (cells[i].block ==> cells[i].born <= L.steps)
    {
      assert Stands(L, cells[i], refs[i]);
    }
    forall i | 0 <= i < |refs'|
      ensures Stands(L', cells'[i], refs'[i])
    {
    }
  }

  /** So does keeping a value inside its reference. */
  lemma SelfStands(L: Layout, L': Layout, cells: seq<Cell>, refs: seq<Ref>, v: seq<byte>, ref: Ref)
    requires AllStand(L, cells, refs) && L'.steps >= L.steps && L'.contents == L.contents && L'.issued == L.issued
    requires (ref.IsInline() || ref.generation == 0) && SelfView(ref) == Some(v)
    ensures AllStand(L', cells + [Cell(v, false, false, 0)], refs + [ref])
  {
    var cells', refs' := cells + [Cell(v, false, false, 0)], refs + [ref];
    forall i | 0 <= i < |refs'|
      ensures Stands(L', cells'[i], refs'[i])
    {
      if i < |refs| { assert Stands(L, cells[i], refs[i]); }
    }
  }

  /** Dropping one cell leaves the others as they were. */
  lemma DropStands(L: Layout, L': Layout, cells: seq<Cell>, refs: seq<Ref>, k: nat)
    requires AllStand(L, cells, refs) && k < |cells| && !cells[k].dropped
    requires L'.steps == L.steps && L'.issued == L.issued
    requires L'.contents == if cells[k].block then L.contents - {cells[k].born} else L.contents
    ensures AllStand(L', cells[k := cells[k].(dropped := cells[k].block)], refs)
  {
    var cells' := cells[k := cells[k].(dropped := cells[k].block)];
    forall i | 0 <= i < |refs|
      ensures Stands(L', cells'[i], refs[i])
    {
      assert Stands(L, cells[i], refs[i]) && Stands(L, cells[k], refs[k]);
    }
  }

  /** Alloc as a run sees it: one more ticket, nothing else. */
  method Issue(arena: Arena, v: seq<byte>) returns (ref: Ref)
    requires arena.Valid() && |v| + 8 <= MAX_BLOCK && |arena.segments| < MAX_SEGMENTS
    modifies arena
    ensures arena.Valid() && |arena.segments| <= old(|arena.segments|) + 1
    ensures v == [] ==> ref == Ref(0, 0) && arena.layout == old(arena.layout)
    ensures var L, L' := old(arena.layout), arena.layout;
      v != [] ==>
      && L'.steps == L.steps + 1 && L'.contents == L.contents[L'.steps := v]
      && L'.issued.Keys == L.issued.Keys + {L'.steps} && L'.steps !in L.issued
      && (forall t :: t in L.issued ==> L'.issued[t] == L.issued[t])
      && ref == TicketRef(L', L'.steps)
  {
    hide Arena.Valid, Arena.ShapeOf, Arena.MemoryBytes, ShapeStep, ShapeGrowth;
    NewTicket(arena);
    ref := arena.Alloc(v);
  }

  method DoStore(arena: Arena, refs: seq<Ref>, v: seq<byte>, ghost m: Model) returns (refs': seq<Ref>)
    requires Refines(arena, m, refs) && Legal(m, Store(v))
    modifies arena
    ensures Refines(arena, Next(m, Store(v)), refs')
  {
    ghost var L := arena.layout;
    var ref := Issue(arena, v);
    refs' := refs + [ref];
    if v == [] {
      SelfStands(L, L, m.cells, refs, v, ref);
    } else {
      StoreStands(L, arena.layout, m.cells, refs, v);
    }
  }

  method DoInline(arena: Arena, refs: seq<Ref>, v: seq<byte>, ghost m: Model) returns (refs': seq<Ref>)
    requires Refines(arena, m, refs)
    modifies arena
    ensures Refines(arena, Next(m, StoreInline(v)), refs')
  {
    ghost var L := arena.layout;
    var ref := arena.AllocInline(v);
    if ref.None? {
      return refs;
    }
    refs' := refs + [ref.value];
    SelfStands(L, arena.layout, m.cells, refs, v, ref.value);
  }

  method DoDrop(arena: Arena, refs: seq<Ref>, k: nat, ghost m: Model)
    requires Refines(arena, m, refs) && Legal(m, Drop(k))
    modifies arena
    ensures Refines(arena, Next(m, Drop(k)), refs)
  {
    ghost var L := arena.layout;
    assert Stands(L, m.cells[k], refs[k]);
    if m.cells[k].block { arena.RefOfFields(m.cells[k].born); }
    var released := arena.Free(refs[k], m.cells[k].born);
    DropStands(L, arena.layout, m.cells, refs, k);
  }

  method DoRead(arena: Arena, refs: seq<Ref>, k: nat, ghost m: Model) returns (answer: Option<seq<byte>>)
    requires Refines(arena, m, refs) && Legal(m, Read(k))
    ensures answer == Answer(m.cells[k])
  {
    assert Stands(arena.layout, m.cells[k], refs[k]);
    if m.cells[k].block {
      if m.cells[k].dropped { arena.ViewStale(m.cells[k].born); } else { arena.ViewLive(m.cells[k].born); }
    }
    answer := arena.View(refs[k]);
  }

  method Step(arena: Arena, refs: seq<Ref>, op: Op, ghost m: Model)
    returns (refs': seq<Ref>, answers: seq<Option<seq<byte>>>)
    requires Refines(arena, m, refs) && Legal(m, op)
    modifies arena
    ensures Refines(arena, Next(m, op), refs')
    ensures answers == if op.Read? then [Answer(m.cells[op.k])] else []
  {
    refs', answers := refs, [];
    match op {
      case Store(v) => refs' := DoStore(arena, refs, v, m);
      case StoreInline(v) => refs' := DoInline(arena, refs, v, m);
      case Drop(k) => DoDrop(arena, refs, k, m);
      case Read(k) =>
        var answer := DoRead(arena, refs, k, m);
        answers := [answer];
    }
  }

  method RunFrom(arena: Arena, refs: seq<Ref>, ops: seq<Op>, ghost m: Model) returns (out: seq<Option<seq<byte>>>)
    requires Refines(arena, m, refs) && LegalRun(m, ops)
    modifies arena
    ensures out == Answers(m, ops)
    decreases |ops|
  {
    if ops == [] {
      return [];
    }
    var refs', answers := Step(arena, refs, ops[0], m);
    var rest := RunFrom(arena, refs', ops[1..], Next(m, ops[0]));
    out := answers + rest;
  }

  /** Over every legal run from an empty arena, reads answer exactly as the list of cells does. */
  method Run(ops: seq<Op>) returns (out: seq<Option<seq<byte>>>)
    requires LegalRun(Model([], 0, 0), ops)
    ensures out == Answers(Model([], 0, 0), ops)
  {
    var arena := new Arena();
    out := RunFrom(arena, [], ops, Model([], 0, 0));
  }
}
