/** Stored sketches: their bytes, and whole runs of CMS commands over many keys. */
module CountMinStore {
  import opened Words
  import opened Sums
  import opened CountMin
  import opened CountMinMerge

  const HEADER := 32
  const MAGIC: seq<byte> := ['S' as int, 'C' as int, 'M' as int, 1]

  // ---- bytes ----

  function CellBytes(cells: seq<nat>): (s: seq<byte>)
    ensures |s| == 4 * |cells|
  {
    if cells == [] then [] else CellBytes(cells[..|cells| - 1]) + Le(cells[|cells| - 1], 4)
  }

  function HeadBytes(s: Sketch): (h: seq<byte>)
    ensures |h| == HEADER
  {
    MAGIC + (Le(s.width, 8) + (Le(s.depth, 8) + (Le(s.count, 8) + [0, 0, 0, 0])))
  }

  function Encoded(s: Sketch): seq<byte>
  {
    HeadBytes(s) + CellBytes(s.cells)
  }

  function CellsOf(v: seq<byte>, n: nat): (cells: seq<nat>)
    requires HEADER + 4 * n <= |v|
    ensures |cells| == n
  {
    seq(n, i requires 0 <= i < n => Word(v, HEADER + 4 * i, 4))
  }

  /** The sketch that bytes decode to, if they pass every check. */
  function Decoded(v: seq<byte>): Option<Sketch>
  {
    if |v| < HEADER || v[..4] != MAGIC then None
    else
      var width, depth, count := Word(v, 4, 8), Word(v, 12, 8), Word(v, 20, 8);
      if width < 1 || depth < 1 || width > MAX_INT64 / depth then None
      else if HEADER + 4 * (depth * width) != |v| || count > MAX_INT64 then None
      else Some(Sketch(width, depth, count, CellsOf(v, depth * width)))
  }

  lemma {:induction false} CellBytesAt(cells: seq<nat>, i: nat)
    requires i < |cells|
    ensures CellBytes(cells)[4 * i..4 * i + 4] == Le(cells[i], 4)
  {
    hide Le;
    var n := |cells| - 1;
    if i < n {
      CellBytesAt(cells[..n], i);
      SliceFirst(CellBytes(cells[..n]), Le(cells[n], 4), 4 * i, 4 * i + 4);
    }
  }

  lemma SliceFirst(a: seq<byte>, b: seq<byte>, lo: nat, hi: nat)
    requires lo <= hi <= |a|
    ensures (a + b)[lo..hi] == a[lo..hi]
  {
  }

  lemma SliceSecond(a: seq<byte>, b: seq<byte>, lo: nat, hi: nat)
    requires lo <= hi <= |b|
    ensures (a + b)[|a| + lo..|a| + hi] == b[lo..hi]
  {
  }

  lemma HeadWords(m: seq<byte>, a: seq<byte>, b: seq<byte>, c: seq<byte>, z: seq<byte>)
    requires |m| == 4 && |a| == |b| == |c| == 8 && |z| == 4
    ensures var h := m + (a + (b + (c + z)));
      |h| == 32 && h[..4] == m && h[4..12] == a && h[12..20] == b && h[20..28] == c
  {
  }

  lemma HeaderReads(s: Sketch)
    requires s.width < TWO64 && s.depth < TWO64 && s.count < TWO64
    ensures var v := Encoded(s);
      v[..4] == MAGIC && Word(v, 4, 8) == s.width && Word(v, 12, 8) == s.depth && Word(v, 20, 8) == s.count
  {
    hide Le, CellBytes;
    var h, t := HeadBytes(s), CellBytes(s.cells);
    HeadWords(MAGIC, Le(s.width, 8), Le(s.depth, 8), Le(s.count, 8), [0, 0, 0, 0]);
    SliceFirst(h, t, 0, 4);
    SliceFirst(h, t, 4, 12);
    SliceFirst(h, t, 12, 20);
    SliceFirst(h, t, 20, 28);
    WordLimits();
    LeRoundTrip(s.width, 8);
    LeRoundTrip(s.depth, 8);
    LeRoundTrip(s.count, 8);
  }

  lemma CellReads(s: Sketch, i: nat)
    requires i < |s.cells| && s.cells[i] <= MAX_UINT32
    ensures Word(Encoded(s), HEADER + 4 * i, 4) == s.cells[i]
  {
    hide Le, CellBytes, HeadBytes;
    CellBytesAt(s.cells, i);
    SliceSecond(HeadBytes(s), CellBytes(s.cells), 4 * i, 4 * i + 4);
    WordLimits();
    LeRoundTrip(s.cells[i], 4);
  }

  lemma DimsFit(width: nat, depth: nat)
    requires width >= 1 && depth >= 1 && depth * width <= MAX_CELLS
    ensures width <= MAX_CELLS && depth <= MAX_CELLS && width <= MAX_INT64 / depth
  {
    MulMono(1, depth, width);
    MulMono(1, width, depth);
    DivMul(width, depth, MAX_INT64);
  }

  lemma CellsRead(s: Sketch)
    requires Shape(s)
    ensures |Encoded(s)| == HEADER + 4 * |s.cells| && CellsOf(Encoded(s), |s.cells|) == s.cells
  {
    hide Word, CellBytes, HeadBytes;
    var v := Encoded(s);
    forall i | 0 <= i < |s.cells|
      ensures CellsOf(v, |s.cells|)[i] == s.cells[i]
    {
      CellReads(s, i);
    }
  }

  /** Every sketch reads back from its bytes. */
  lemma SketchRoundTrip(s: Sketch)
    requires Shape(s)
    ensures Decoded(Encoded(s)) == Some(s)
  {
    hide Word, CellsOf, Encoded;
    DimsFit(s.width, s.depth);
    CellsRead(s);
    HeaderReads(s);
  }

  // ---- the store ----

  type Key = seq<byte>

  datatype Op =
    | OpInit(key: Key, width: nat, depth: nat)
    | OpIncr(key: Key, items: seq<Item>, values: seq<nat>)
    | OpMerge(key: Key, sources: seq<Key>, weights: seq<int>)

  ghost predicate Stored(v: seq<byte>)
  {
    exists s :: Sound(s) && v == Encoded(s)
  }

  ghost function SketchIn(v: seq<byte>): (s: Sketch)
    requires Stored(v)
    ensures Sound(s) && v == Encoded(s) && Decoded(v) == Some(s)
  {
    var s :| Sound(s) && v == Encoded(s);
    SketchRoundTrip(s);
    s
  }

  /** Every stored sketch is sound. */
  ghost predicate Good(store: map<Key, seq<byte>>)
  {
    forall k :: k in store ==> Stored(store[k])
  }

  /** How often each item really came to each key. */
  ghost predicate Tracks(store: map<Key, seq<byte>>, hash: RowHash, tallies: map<Key, Tally>)
    requires Good(store)
  {
    tallies.Keys == store.Keys && forall k :: k in store ==> Covers(SketchIn(store[k]), hash, tallies[k])
  }

  predicate WellFormed(op: Op)
  {
    match op
    case OpMerge(_, _, weights) => forall i :: 0 <= i < |weights| ==> Int64(weights[i])
    case _ => true
  }

  /** The command is no merge whose weights can cancel counts. */
  ghost predicate KeepsCounts(op: Op)
  {
    op.OpMerge? ==> !CanCancel(op.weights)
  }

  function AddedAll(t: Tally, items: seq<Item>, values: seq<nat>): Tally
    requires |items| == |values|
  {
    if items == [] then t
    else
      var n := |items| - 1;
      Added(AddedAll(t, items[..n], values[..n]), items[n], values[n])
  }

  /** CMS.INITBYDIM. */
  method Init(width: nat, depth: nat) returns (r: Option<Sketch>)
    ensures r.Some? <==> width >= 1 && depth >= 1 && depth * width <= MAX_CELLS
    ensures r.Some? ==> Sound(r.value) && SameSize(r.value, width, depth) && r.value.count == 0
    ensures r.Some? ==> forall i :: 0 <= i < |r.value.cells| ==> r.value.cells[i] == 0
  {
    hide Sum;
    if width < 1 || depth < 1 { return None; }
    if width > MAX_INT64 / depth || depth * width > MAX_CELLS {
      if depth * width <= MAX_CELLS { DimsFit(width, depth); }
      return None;
    }
    var s := Sketch(width, depth, 0, seq(depth * width, _ => 0));
    forall r | 0 <= r < depth
      ensures RowSum(s, r) == 0
    {
      RowFits(width, depth, r);
      SumZero(Row(s.cells, width, r));
    }
    return Some(s);
  }

  /** The sketch after the first `n` increments. */
  function After(s: Sketch, hash: RowHash, items: seq<Item>, values: seq<nat>, n: nat): (t: Sketch)
    requires s.width >= 1 && |s.cells| == s.depth * s.width && n <= |items| == |values|
    ensures t.width == s.width && t.depth == s.depth && |t.cells| == |s.cells|
  {
    if n == 0 then s else Increased(After(s, hash, items, values, n - 1), hash, items[n - 1], values[n - 1])
  }

  lemma AfterNone(s: Sketch, hash: RowHash, items: seq<Item>, values: seq<nat>)
    requires s.width >= 1 && |s.cells| == s.depth * s.width && |items| == |values|
    ensures After(s, hash, items, values, 0) == s
  {
  }

  lemma AfterNext(s: Sketch, hash: RowHash, items: seq<Item>, values: seq<nat>, i: nat)
    requires s.width >= 1 && |s.cells| == s.depth * s.width && i < |items| == |values|
    ensures After(s, hash, items, values, i + 1) ==
      Increased(After(s, hash, items, values, i), hash, items[i], values[i])
  {
  }

  /** Some increment of the list would overflow. */
  ghost predicate Refused(s: Sketch, hash: RowHash, items: seq<Item>, values: seq<nat>)
    requires s.width >= 1 && |s.cells| == s.depth * s.width && |items| == |values|
  {
    exists i :: 0 <= i < |items| && values[i] > 0 &&
      Overflows(After(s, hash, items, values, i), hash, items[i], values[i])
  }

  /** CMS.INCRBY on a decoded sketch: every answer is the item's estimate after its own increment, and
      one overflow refuses them all. */
  method IncrBy(s: Sketch, hash: RowHash, items: seq<Item>, values: seq<nat>) returns (r: Option<(Sketch, seq<nat>)>)
    requires Sound(s) && |items| == |values|
    ensures r.Some? ==>
      Sound(r.value.0) && r.value.0 == After(s, hash, items, values, |items|) && |r.value.1| == |items|
    ensures r.Some? ==> forall i :: 0 <= i < |items| ==>
      r.value.1[i] == Query(After(s, hash, items, values, i + 1), hash, items[i])
    ensures r.None? <==> Refused(s, hash, items, values)
  {
    hide Balanced, Query, Increased, Overflows, After;
    var c := new Counter(s, hash);
    var results := [];
    AfterNone(s, hash, items, values);
    for i := 0 to |items|
      invariant c.hash == hash && fresh(c) && fresh(c.cells) && c.Value() == After(s, hash, items, values, i)
      invariant Sound(c.Value())
      invariant |results| == i
      invariant forall j :: 0 <= j < i ==> results[j] == Query(After(s, hash, items, values, j + 1), hash, items[j])
      invariant forall j :: 0 <= j < i && values[j] > 0 ==>
        !Overflows(After(s, hash, items, values, j), hash, items[j], values[j])
    {
      ghost var now := c.Value();
      AfterNext(s, hash, items, values, i);
      var q := c.Increment(items[i], values[i]);
      if q.None? { return None; }
      IncreaseBalanced(now, hash, items[i], values[i]);
      results := results + [q.value];
    }
    var cells := c.cells[..];
    return Some((Sketch(c.width, c.depth, c.count, cells), results));
  }

  lemma {:induction false} AfterCovers(s: Sketch, hash: RowHash, items: seq<Item>, values: seq<nat>, n: nat, t: Tally)
    requires s.width >= 1 && |s.cells| == s.depth * s.width && n <= |items| == |values| && Covers(s, hash, t)
    ensures Covers(After(s, hash, items, values, n), hash, AddedAll(t, items[..n], values[..n]))
  {
    hide Covers, Increased;
    if n == 0 {
      assert items[..0] == [] && values[..0] == [];
    } else {
      AfterCovers(s, hash, items, values, n - 1, t);
      IncreaseCovers(After(s, hash, items, values, n - 1), hash, items[n - 1], values[n - 1],
        AddedAll(t, items[..n - 1], values[..n - 1]));
      assert items[..n][..n - 1] == items[..n - 1] && values[..n][..n - 1] == values[..n - 1];
    }
  }

  // ---- runs ----

  ghost function TallyOf(tallies: map<Key, Tally>, k: Key): Tally
  {
    if k in tallies then tallies[k] else x => 0
  }

  /** The tallies after a command that was carried out. */
  ghost function TallyAfter(tallies: map<Key, Tally>, op: Op): map<Key, Tally>
  {
    match op
    case OpInit(k, _, _) => tallies[k := x => 0]
    case OpIncr(k, items, values) =>
      if |items| == |values| then tallies[k := AddedAll(TallyOf(tallies, k), items, values)] else tallies
    case OpMerge(k, sources, weights) =>
      if |sources| == |weights| then tallies[k := MergedTallies(tallies, sources, weights)] else tallies
  }

  ghost function MergedTallies(tallies: map<Key, Tally>, sources: seq<Key>, weights: seq<int>): Tally
    requires |sources| == |weights|
  {
    x =>
      Clamp(MergedTally(seq(|sources|, i requires 0 <= i < |sources| => TallyOf(tallies, sources[i])), weights,
                        |sources|, x))
  }

  /** Reads one sketch. */
  method Load(store: map<Key, seq<byte>>, key: Key) returns (r: Option<Sketch>)
    requires Good(store)
    ensures r.Some? <==> key in store
    ensures r.Some? ==> r.value == SketchIn(store[key]) && Sound(r.value)
  {
    hide Decoded, Sound;
    if key !in store { return None; }
    ghost var s := SketchIn(store[key]);
    return Decoded(store[key]);
  }

  /** Publishes one sketch. */
  method Save(store: map<Key, seq<byte>>, key: Key, s: Sketch, ghost hash: RowHash, ghost tallies: map<Key, Tally>,
              ghost t: Tally)
    returns (next: map<Key, seq<byte>>)
    requires Good(store) && Sound(s)
    ensures Good(next) && key in next && next == store[key := next[key]] && SketchIn(next[key]) == s
    ensures Tracks(store, hash, tallies) && Covers(s, hash, t) ==> Tracks(next, hash, tallies[key := t])
  {
    hide Decoded, Sound, Covers, Encoded;
    next := store[key := Encoded(s)];
    assert Stored(Encoded(s));
    SketchUnique(s);
  }

  lemma SketchUnique(s: Sketch)
    requires Sound(s)
    ensures Stored(Encoded(s)) && SketchIn(Encoded(s)) == s
  {
    hide Encoded, Balanced;
    SketchRoundTrip(s);
    assert Stored(Encoded(s));
  }

  lemma ZeroCovers(s: Sketch, hash: RowHash)
    requires s.width >= 1 && |s.cells| == s.depth * s.width
    ensures Covers(s, hash, x => 0)
  {
  }

  /** What a command makes of the sketch under its key. */
  ghost predicate Effect(store: map<Key, seq<byte>>, next: map<Key, seq<byte>>, hash: RowHash, op: Op)
    requires Good(store) && Good(next)
  {
    && op.key in next && next == store[op.key := next[op.key]]
    && var s := SketchIn(next[op.key]);
       match op
       case OpInit(k, width, depth) =>
         k !in store && SameSize(s, width, depth) && s.count == 0 && forall i :: 0 <= i < |s.cells| ==> s.cells[i] == 0
       case OpIncr(k, items, values) =>
         k in store && |items| == |values| && s == After(SketchIn(store[k]), hash, items, values, |items|)
       case OpMerge(k, sources, weights) =>
         && k in store && SameSize(s, SketchIn(store[k]).width, SketchIn(store[k]).depth)
         && |sources| == |weights| && MergesKeys(store, s, sources, weights)
  }

  ghost function SketchesOf(store: map<Key, seq<byte>>, sources: seq<Key>): (s: seq<Sketch>)
    requires Good(store) && forall i :: 0 <= i < |sources| ==> sources[i] in store
    ensures |s| == |sources| && forall i :: 0 <= i < |sources| ==> s[i] == SketchIn(store[sources[i]])
  {
    seq(|sources|, i requires 0 <= i < |sources| => SketchIn(store[sources[i]]))
  }

  ghost predicate MergesKeys(store: map<Key, seq<byte>>, s: Sketch, sources: seq<Key>, weights: seq<int>)
    requires Good(store) && |sources| == |weights|
  {
    && (forall i :: 0 <= i < |sources| ==> sources[i] in store)
    && IsMerge(s, SketchesOf(store, sources), weights)
  }

  /** The key is there and no increment overflows. */
  ghost predicate IncrAccepted(store: map<Key, seq<byte>>, hash: RowHash, key: Key, items: seq<Item>, values: seq<nat>)
    requires Good(store)
  {
    key in store && |items| == |values| && !Refused(SketchIn(store[key]), hash, items, values)
  }

  /** The command is carried out: its keys are there, or not there for a new sketch, its arguments are in
      range, and nothing overflows. */
  ghost predicate OpAccepted(store: map<Key, seq<byte>>, hash: RowHash, op: Op)
    requires Good(store)
  {
    match op
    case OpInit(k, width, depth) => k !in store && width >= 1 && depth >= 1 && depth * width <= MAX_CELLS
    case OpIncr(k, items, values) => IncrAccepted(store, hash, k, items, values)
    case OpMerge(k, sources, weights) => MergeAccepted(store, k, sources, weights)
  }

  /** The merge finds all its keys and its sketches are accepted. */
  ghost predicate MergeAccepted(store: map<Key, seq<byte>>, key: Key, sources: seq<Key>, weights: seq<int>)
    requires Good(store)
  {
    && sources != [] && |sources| == |weights|
    && key in store && (forall i :: 0 <= i < |sources| ==> sources[i] in store)
    && Accepted(SketchIn(store[key]), SketchesOf(store, sources), weights)
  }

  /** One command: sketches stay sound, and unless a merge can cancel counts no item is counted too low. */
  method Step(store: map<Key, seq<byte>>, hash: RowHash, op: Op, ghost tallies: map<Key, Tally>)
    returns (next: map<Key, seq<byte>>, ok: bool)
    requires Good(store) && WellFormed(op)
    ensures Good(next) && (if ok then Effect(store, next, hash, op) else next == store)
    ensures ok <==> OpAccepted(store, hash, op)
    ensures ok && KeepsCounts(op) && Tracks(store, hash, tallies) ==> Tracks(next, hash, TallyAfter(tallies, op))
  {
    hide Covers, Encoded, AddedAll, MergedTallies, Stored, Refused, Balanced;
    next, ok := store, false;
    match op {
      case OpInit(key, width, depth) =>
        if key in store { return; }
        var s := Init(width, depth);
        if s.None? { return; }
        SoundShape(s.value);
        ZeroCovers(s.value, hash);
        next := Save(store, key, s.value, hash, tallies, x => 0);
        ok := true;
      case OpIncr(key, items, values) =>
        if |items| != |values| { return; }
        var s := Load(store, key);
        if s.None? { return; }
        SoundShape(s.value);
        var r := IncrBy(s.value, hash, items, values);
        if r.None? { return; }
        if Tracks(store, hash, tallies) {
          AfterCovers(s.value, hash, items, values, |items|, tallies[key]);
          assert items[..|items|] == items && values[..|items|] == values;
        }
        next := Save(store, key, r.value.0, hash, tallies, AddedAll(TallyOf(tallies, key), items, values));
        ok := true;
      case OpMerge(key, sources, weights) =>
        next, ok := MergeKeys(store, hash, key, sources, weights, tallies);
    }
  }

  lemma SoundShape(s: Sketch)
    requires Sound(s)
    ensures Shape(s)
  {
  }

  /** Reads all the sketches of a merge. */
  method LoadAll(store: map<Key, seq<byte>>, sources: seq<Key>) returns (r: Option<seq<Sketch>>)
    requires Good(store)
    ensures r.Some? <==> forall i :: 0 <= i < |sources| ==> sources[i] in store
    ensures r.Some? ==> r.value == SketchesOf(store, sources) && forall i :: 0 <= i < |r.value| ==> Sound(r.value[i])
  {
    hide Sound, Stored;
    var sketches := [];
    for i := 0 to |sources|
      invariant |sketches| == i
      invariant forall j :: 0 <= j < i ==>
        Sound(sketches[j]) && sources[j] in store && sketches[j] == SketchIn(store[sources[j]])
    {
      var s := Load(store, sources[i]);
      if s.None? { return None; }
      sketches := sketches + [s.value];
    }
    assert sketches == SketchesOf(store, sources);
    return Some(sketches);
  }

  method MergeKeys(store: map<Key, seq<byte>>, hash: RowHash, key: Key, sources: seq<Key>, weights: seq<int>,
                   ghost tallies: map<Key, Tally>)
    returns (next: map<Key, seq<byte>>, ok: bool)
    requires Good(store) && forall i :: 0 <= i < |weights| ==> Int64(weights[i])
    ensures Good(next) && (if ok then Effect(store, next, hash, OpMerge(key, sources, weights)) else next == store)
    ensures ok <==> MergeAccepted(store, key, sources, weights)
    ensures ok && !CanCancel(weights) && Tracks(store, hash, tallies) ==>
      Tracks(next, hash, tallies[key := MergedTallies(tallies, sources, weights)])
  {
    hide Sound, Covers, Encoded, Stored, IsMerge, Accepted, SketchesOf, CanCancel;
    next, ok := store, false;
    if |sources| == 0 || |sources| != |weights| { return; }
    var dest := Load(store, key);
    if dest.None? { return; }
    var loaded := LoadAll(store, sources);
    if loaded.None? { return; }
    var sketches := loaded.value;
    SoundShape(dest.value);
    var merged := Merge(dest.value, sketches, weights);
    if merged.None? { return; }
    SoundShape(merged.value);
    ghost var t := MergedTallies(tallies, sources, weights);
    if !CanCancel(weights) && Tracks(store, hash, tallies) {
      AcceptedSize(dest.value, merged.value, sketches, weights);
      MergedTracks(merged.value, hash, sketches, sources, weights, store, tallies);
    }
    next := Save(store, key, merged.value, hash, tallies, t);
    ok := true;
  }

  lemma AcceptedSize(dest: Sketch, s: Sketch, sources: seq<Sketch>, weights: seq<int>)
    requires Accepted(dest, sources, weights) && SameSize(s, dest.width, dest.depth) && |s.cells| == |dest.cells|
    ensures Accepted(s, sources, weights)
  {
  }

  lemma MergedTracks(s: Sketch, hash: RowHash, sketches: seq<Sketch>, sources: seq<Key>, weights: seq<int>,
                     store: map<Key, seq<byte>>, tallies: map<Key, Tally>)
    requires Good(store) && Tracks(store, hash, tallies) && |sketches| == |sources| == |weights|
    requires forall j :: 0 <= j < |sources| ==>
      Sound(sketches[j]) && sources[j] in store && sketches[j] == SketchIn(store[sources[j]])
    requires IsMerge(s, sketches, weights)
    requires Shape(s) && Accepted(s, sketches, weights) && !CanCancel(weights)
    ensures Covers(s, hash, MergedTallies(tallies, sources, weights))
  {
    hide Covers, Encoded, Stored, IsMerge, Balanced, MergedTally;
    var ts := seq(|sources|, i requires 0 <= i < |sources| => TallyOf(tallies, sources[i]));
    var t := MergedTallies(tallies, sources, weights);
    forall i | 0 <= i < |sketches|
      ensures Covers(sketches[i], hash, ts[i])
    {
      assert ts[i] == tallies[sources[i]];
    }
    MergeCovers(s, hash, sketches, weights, ts, t);
  }

  /** The tallies of a run, given which commands were carried out. */
  ghost function Truth(ops: seq<Op>, done: seq<bool>): map<Key, Tally>
    requires |ops| == |done|
  {
    if ops == [] then map[]
    else
      var n := |ops| - 1;
      var before := Truth(ops[..n], done[..n]);
      if done[n] then TallyAfter(before, ops[n]) else before
  }

  /** One command of a run: it is carried out exactly when it is accepted, has its effect then, and
      changes nothing otherwise. */
  ghost predicate Follows(before: map<Key, seq<byte>>, after: map<Key, seq<byte>>, hash: RowHash, op: Op, ok: bool)
  {
    && Good(before) && Good(after) && (ok <==> OpAccepted(before, hash, op))
    && if ok then Effect(before, after, hash, op) else after == before
  }

  /** Over every run from an empty store each command follows from the store before it, and each row of
      each stored sketch sums to its count; and while no merge can cancel counts, no sketch counts an item
      too low.  `states` are the stores before, between and after the commands. */
  method Run(ops: seq<Op>, hash: RowHash)
    returns (store: map<Key, seq<byte>>, done: seq<bool>, ghost states: seq<map<Key, seq<byte>>>)
    requires forall i :: 0 <= i < |ops| ==> WellFormed(ops[i])
    ensures |done| == |ops| && |states| == |ops| + 1 && states[0] == map[] && states[|ops|] == store && Good(store)
    ensures forall i :: 0 <= i < |ops| ==> Follows(states[i], states[i + 1], hash, ops[i], done[i])
    ensures (forall i :: 0 <= i < |ops| ==> KeepsCounts(ops[i])) ==> Tracks(store, hash, Truth(ops, done))
  {
    hide Good, Effect, OpAccepted, TallyAfter, Truth, Tracks, KeepsCounts;
    store, done, states := map[], [], [map[]];
    RunStart(ops, hash);
    for i := 0 to |ops|
      invariant |done| == i && |states| == i + 1 && states[0] == map[] && states[i] == store && Good(store)
      invariant forall j :: 0 <= j < i ==> Follows(states[j], states[j + 1], hash, ops[j], done[j])
      invariant (forall j :: 0 <= j < i ==> KeepsCounts(ops[j])) ==> Tracks(store, hash, Truth(ops[..i], done))
    {
      ghost var before := store;
      var ok;
      store, ok := Step(store, hash, ops[i], Truth(ops[..i], done));
      TruthNext(ops, done, ok, i);
      assert Follows(before, store, hash, ops[i], ok);
      done, states := done + [ok], states + [store];
    }
    assert ops[..|ops|] == ops;
  }

  lemma RunStart(ops: seq<Op>, hash: RowHash)
    ensures Good(map[]) && Tracks(map[], hash, Truth(ops[..0], []))
  {
  }

  lemma TruthNext(ops: seq<Op>, done: seq<bool>, ok: bool, i: nat)
    requires |done| == i < |ops|
    ensures Truth(ops[..i + 1], done + [ok]) ==
      if ok then TallyAfter(Truth(ops[..i], done), ops[i]) else Truth(ops[..i], done)
  {
    hide TallyAfter;
    assert ops[..i + 1][..i] == ops[..i] && (done + [ok])[..i] == done;
  }

  /** CMS.QUERY of a stored sketch: between what really came and the count. */
  method QueryKey(store: map<Key, seq<byte>>, hash: RowHash, key: Key, item: Item, ghost tallies: map<Key, Tally>)
    returns (r: Option<nat>)
    requires Good(store)
    ensures r.Some? <==> key in store
    ensures r.Some? ==> r.value == Query(SketchIn(store[key]), hash, item)
    ensures r.Some? && Tracks(store, hash, tallies) ==> tallies[key](item) <= r.value <= SketchIn(store[key]).count
  {
    hide Covers, Stored, Query, Balanced, Encoded;
    var s := Load(store, key);
    if s.None? { return None; }
    var c := new Counter(s.value, hash);
    var q := c.QueryItem(item);
    if Tracks(store, hash, tallies) { QueryBounds(s.value, hash, tallies[key], item); }
    return Some(q);
  }
}
