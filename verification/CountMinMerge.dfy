/** Weighted merge of Count-Min sketches: the overflow check on the counts makes the unchecked product
    of each counter safe, and the merged rows still sum to the merged count. */
module CountMinMerge {
  import opened Words
  import opened Sums
  import opened CountMin

  /** What a 64-bit signed word keeps of a number. */
  function Wrap(n: int): int
  {
    (n - MIN_INT64) % TWO64 + MIN_INT64
  }

  lemma WrapFits(n: int)
    requires Int64(n)
    ensures Wrap(n) == n
  {
  }

  function Abs64(w: int): int
  {
    if w >= 0 then w else if w == MIN_INT64 then MAX_INT64 else -w
  }

  /** The check that the code makes on a count before it multiplies. */
  predicate Checked(count: nat, w: int)
  {
    w == 0 || (Abs64(w) > 0 && count <= MAX_INT64 / Abs64(w))
  }

  lemma DivMul(c: nat, a: nat, m: nat)
    requires a > 0
    ensures c <= m / a <==> c * a <= m
  {
    var q := m / a;
    assert m == a * q + m % a;
    if c <= q { MulMono(c, q, a); }
    else { MulMono(q + 1, c, a); }
  }

  /** A checked count times its weight fits in 64 bits, and so does any smaller counter. */
  lemma CheckedProduct(count: nat, w: int, x: nat)
    requires Int64(w) && Checked(count, w) && x <= count <= MAX_INT64
    ensures Int64(x * w)
  {
    var a := Abs64(w);
    if w == 0 {
    } else if w == MIN_INT64 {
      assert count <= 1;
    } else {
      DivMul(count, a, MAX_INT64);
      MulMono(x, count, a);
      assert x * w == x * a || x * w == -(x * a);
    }
  }

  // ---- weighted sums ----

  /** The weighted sum of one number from each of the first `n` sketches. */
  function Weighted(f: Sketch -> int, sources: seq<Sketch>, weights: seq<int>, n: nat): int
    requires n <= |sources| == |weights|
  {
    if n == 0 then 0 else Weighted(f, sources, weights, n - 1) + f(sources[n - 1]) * weights[n - 1]
  }

  function CountOf(): Sketch -> int { (s: Sketch) => s.count }

  function CellOf(i: nat): Sketch -> int { (s: Sketch) => if i < |s.cells| then s.cells[i] else 0 }

  ghost predicate NonNegative(f: Sketch -> int, sources: seq<Sketch>, weights: seq<int>)
    requires |sources| == |weights|
  {
    forall i :: 0 <= i < |sources| ==> weights[i] >= 0 && f(sources[i]) >= 0
  }

  lemma {:induction false} WeightedGrows(f: Sketch -> int, sources: seq<Sketch>, weights: seq<int>, m: nat, n: nat)
    requires m <= n <= |sources| == |weights| && NonNegative(f, sources, weights)
    ensures 0 <= Weighted(f, sources, weights, m) <= Weighted(f, sources, weights, n)
  {
    if n > 0 {
      NonNegativeProduct(f(sources[n - 1]), weights[n - 1]);
      if m < n { WeightedGrows(f, sources, weights, m, n - 1); }
      else { WeightedGrows(f, sources, weights, n - 1, n - 1); }
    }
  }

  lemma NonNegativeProduct(x: int, w: int)
    requires x >= 0 && w >= 0
    ensures x * w >= 0
  {
  }

  /** Every running sum of the first sketches fits in 64 bits. */
  ghost predicate Running(f: Sketch -> int, sources: seq<Sketch>, weights: seq<int>)
    requires |sources| == |weights|
  {
    forall n {:trigger Weighted(f, sources, weights, n)} ::
      0 <= n <= |sources| ==> Int64(Weighted(f, sources, weights, n))
  }

  /** Adds a part to a running 64-bit total, or reports overflow. */
  method AddPart(total: int, part: int) returns (r: Option<int>)
    requires Int64(total) && Int64(part)
    ensures r == if Int64(total + part) then Some(total + part) else None
  {
    if (part > 0 && total > MAX_INT64 - part) || (part < 0 && total < MIN_INT64 - part) { return None; }
    WrapFits(total + part);
    return Some(Wrap(total + part));
  }

  /** The merged count is accepted. */
  ghost predicate CountFits(sources: seq<Sketch>, weights: seq<int>)
    requires |sources| == |weights|
  {
    && (forall i :: 0 <= i < |sources| ==> Checked(sources[i].count, weights[i]))
    && Running(CountOf(), sources, weights) && Weighted(CountOf(), sources, weights, |sources|) >= 0
  }

  /** A merged counter is accepted. */
  ghost predicate CellFits(sources: seq<Sketch>, weights: seq<int>, cell: nat)
    requires |sources| == |weights|
  {
    Running(CellOf(cell), sources, weights) && 0 <= Weighted(CellOf(cell), sources, weights, |sources|) <= MAX_UINT32
  }

  /** The merged count. */
  method TotalCount(sources: seq<Sketch>, weights: seq<int>) returns (r: Option<nat>)
    requires |sources| == |weights| && (forall i :: 0 <= i < |weights| ==> Int64(weights[i]))
    requires forall i :: 0 <= i < |sources| ==> sources[i].count <= MAX_INT64
    ensures r.Some? ==> r.value == Weighted(CountOf(), sources, weights, |sources|) <= MAX_INT64
    ensures r.Some? <==> CountFits(sources, weights)
  {
    hide Weighted, Wrap;
    var total := 0;
    WeightedNone(CountOf(), sources, weights);
    for i := 0 to |sources|
      invariant Int64(total) && total == Weighted(CountOf(), sources, weights, i)
      invariant forall j :: 0 <= j < i ==> Checked(sources[j].count, weights[j])
      invariant forall j :: 0 <= j <= i ==> Int64(Weighted(CountOf(), sources, weights, j))
    {
      var count, w := sources[i].count, weights[i];
      WeightedNext(CountOf(), sources, weights, i);
      if w != 0 && count > MAX_INT64 / Abs64(w) { return None; }
      CheckedProduct(count, w, count);
      WrapFits(count * w);
      var next := AddPart(total, Wrap(count * w));
      if next.None? { return None; }
      total := next.value;
    }
    if total < 0 { return None; }
    return Some(total);
  }

  lemma WeightedNone(f: Sketch -> int, sources: seq<Sketch>, weights: seq<int>)
    requires |sources| == |weights|
    ensures Weighted(f, sources, weights, 0) == 0
  {
  }

  lemma WeightedNext(f: Sketch -> int, sources: seq<Sketch>, weights: seq<int>, i: nat)
    requires i < |sources| == |weights|
    ensures Weighted(f, sources, weights, i + 1) == Weighted(f, sources, weights, i) + f(sources[i]) * weights[i]
  {
  }

  /** One merged counter; its products are not checked and need no check. */
  method MergeCell(sources: seq<Sketch>, weights: seq<int>, cell: nat) returns (r: Option<nat>)
    requires |sources| == |weights| && (forall i :: 0 <= i < |weights| ==> Int64(weights[i]))
    requires forall i :: 0 <= i < |sources| ==>
      Sound(sources[i]) && cell < |sources[i].cells| && Checked(sources[i].count, weights[i])
    ensures r.Some? ==> r.value == Weighted(CellOf(cell), sources, weights, |sources|)
    ensures r.Some? <==> CellFits(sources, weights, cell)
  {
    hide Weighted, Wrap, Balanced;
    var value := 0;
    WeightedNone(CellOf(cell), sources, weights);
    for i := 0 to |sources|
      invariant Int64(value) && value == Weighted(CellOf(cell), sources, weights, i)
      invariant forall j :: 0 <= j <= i ==> Int64(Weighted(CellOf(cell), sources, weights, j))
    {
      var x, w := sources[i].cells[cell], weights[i];
      WeightedNext(CellOf(cell), sources, weights, i);
      CellBound(sources[i], cell);
      CheckedProduct(sources[i].count, w, x);
      WrapFits(x * w);
      var next := AddPart(value, Wrap(x * w));
      if next.None? { return None; }
      value := next.value;
    }
    if value < 0 || value > MAX_UINT32 { return None; }
    return Some(value);
  }

  // ---- the merge ----

  predicate SameSize(s: Sketch, width: nat, depth: nat)
  {
    s.width == width && s.depth == depth
  }

  /** The sketch is the weighted sum of the sources, counter by counter. */
  ghost predicate IsMerge(s: Sketch, sources: seq<Sketch>, weights: seq<int>)
    requires |sources| == |weights|
  {
    && s.count == Weighted(CountOf(), sources, weights, |sources|)
    && forall i {:trigger s.cells[i]} :: 0 <= i < |s.cells| ==>
         s.cells[i] == Weighted(CellOf(i), sources, weights, |sources|)
  }

  /** CMS.MERGE into a sketch of the size of `dest`. */
  method Merge(dest: Sketch, sources: seq<Sketch>, weights: seq<int>) returns (r: Option<Sketch>)
    requires Shape(dest) && (forall i :: 0 <= i < |sources| ==> Sound(sources[i]))
    requires forall i :: 0 <= i < |weights| ==> Int64(weights[i])
    ensures r.Some? <==> Accepted(dest, sources, weights)
    ensures r.Some? ==>
      SameSize(r.value, dest.width, dest.depth) && Sound(r.value) && IsMerge(r.value, sources, weights)
  {
    hide Weighted, Balanced, CellFits, CountFits;
    if |sources| == 0 || |sources| != |weights| { return None; }
    for i := 0 to |sources|
      invariant forall j :: 0 <= j < i ==> SameSize(sources[j], dest.width, dest.depth)
    {
      if sources[i].width != dest.width || sources[i].depth != dest.depth { return None; }
    }
    var count := TotalCount(sources, weights);
    if count.None? { return None; }
    var cells: seq<nat> := [];
    for cell := 0 to |dest.cells|
      invariant |cells| == cell
      invariant forall i :: 0 <= i < cell ==> CellFits(sources, weights, i)
      invariant forall i :: 0 <= i < cell ==> cells[i] == Weighted(CellOf(i), sources, weights, |sources|)
    {
      CountFitsChecks(sources, weights);
      var v := MergeCell(sources, weights, cell);
      if v.None? { return None; }
      cells := cells + [v.value];
    }
    var merged := Sketch(dest.width, dest.depth, count.value, cells);
    forall i | 0 <= i < |cells| ensures cells[i] <= MAX_UINT32 { CellFitsBound(sources, weights, i); }
    MergeBalanced(merged, sources, weights);
    return Some(merged);
  }

  /** The sources that CMS.MERGE accepts: sizes agree, the products of the counts pass the check, no
      running sum overflows, and no merged number leaves its range. */
  ghost predicate Accepted(dest: Sketch, sources: seq<Sketch>, weights: seq<int>)
  {
    && sources != [] && |sources| == |weights|
    && (forall i :: 0 <= i < |sources| ==> SameSize(sources[i], dest.width, dest.depth))
    && CountFits(sources, weights) && forall i :: 0 <= i < |dest.cells| ==> CellFits(sources, weights, i)
  }

  lemma CountFitsChecks(sources: seq<Sketch>, weights: seq<int>)
    requires |sources| == |weights| && CountFits(sources, weights)
    ensures forall i :: 0 <= i < |sources| ==> Checked(sources[i].count, weights[i])
  {
  }

  lemma CellFitsBound(sources: seq<Sketch>, weights: seq<int>, cell: nat)
    requires |sources| == |weights| && CellFits(sources, weights, cell)
    ensures 0 <= Weighted(CellOf(cell), sources, weights, |sources|) <= MAX_UINT32
  {
  }

  /** With weights that are not negative, a sum is refused only when it overflows as a whole. */
  lemma RunningUp(f: Sketch -> int, sources: seq<Sketch>, weights: seq<int>)
    requires |sources| == |weights| && NonNegative(f, sources, weights)
    ensures Running(f, sources, weights) <==> Weighted(f, sources, weights, |sources|) <= MAX_INT64
  {
    hide Weighted;
    forall n | 0 <= n <= |sources|
      ensures 0 <= Weighted(f, sources, weights, n) <= Weighted(f, sources, weights, |sources|)
    {
      WeightedGrows(f, sources, weights, n, |sources|);
    }
  }

  /** With weights that are not negative, a merge of sketches of one size is refused only when the merged
      count or a merged counter really overflows. */
  lemma AcceptedUp(dest: Sketch, sources: seq<Sketch>, weights: seq<int>)
    requires sources != [] && |sources| == |weights| && Shape(dest)
    requires forall i :: 0 <= i < |sources| ==>
      weights[i] >= 0 && Int64(weights[i]) && Shape(sources[i]) && SameSize(sources[i], dest.width, dest.depth)
    ensures Accepted(dest, sources, weights) <==>
      && Weighted(CountOf(), sources, weights, |sources|) <= MAX_INT64
      && forall i {:trigger CellOf(i)} :: 0 <= i < |dest.cells| ==>
           Weighted(CellOf(i), sources, weights, |sources|) <= MAX_UINT32
  {
    hide Weighted, Running;
    RunningUp(CountOf(), sources, weights);
    WeightedGrows(CountOf(), sources, weights, 0, |sources|);
    forall i {:trigger CellFits(sources, weights, i)} | 0 <= i < |dest.cells|
      ensures CellFits(sources, weights, i) <==> Weighted(CellOf(i), sources, weights, |sources|) <= MAX_UINT32
    {
      RunningUp(CellOf(i), sources, weights);
      WeightedGrows(CellOf(i), sources, weights, 0, |sources|);
    }
    if Weighted(CountOf(), sources, weights, |sources|) <= MAX_INT64 {
      forall i | 0 <= i < |sources| ensures Checked(sources[i].count, weights[i]) {
        WeightedNext(CountOf(), sources, weights, i);
        WeightedGrows(CountOf(), sources, weights, i, i);
        WeightedGrows(CountOf(), sources, weights, i + 1, |sources|);
        if weights[i] > 0 { DivMul(sources[i].count, weights[i], MAX_INT64); }
      }
    }
    assert forall i {:trigger CellOf(i)} :: 0 <= i < |dest.cells| ==>
      (CellFits(sources, weights, i) <==> Weighted(CellOf(i), sources, weights, |sources|) <= MAX_UINT32);
  }

  /** Counters of the first `n` sources, weighted and added. */
  ghost function Partial(sources: seq<Sketch>, weights: seq<int>, n: nat, lo: nat, len: nat): (s: seq<int>)
    requires n <= |sources| == |weights|
    ensures |s| == len
  {
    seq(len, j requires 0 <= j < len => Weighted(CellOf(lo + j), sources, weights, n))
  }

  lemma {:induction false} SumLinear(a: seq<int>, b: seq<int>, c: seq<int>, w: int)
    requires |a| == |b| == |c| && forall i :: 0 <= i < |a| ==> c[i] == a[i] + b[i] * w
    ensures Sum(c) == Sum(a) + Sum(b) * w
  {
    if a != [] {
      var n := |a| - 1;
      SumLinear(a[..n], b[..n], c[..n], w);
      assert c[n] == a[n] + b[n] * w;
      Distribute(Sum(b[..n]), b[n], w);
    }
  }

  lemma Distribute(x: int, y: int, w: int)
    ensures (x + y) * w == x * w + y * w
  {
  }

  /** A row of the weighted sum adds up to the weighted sum of the counts. */
  lemma {:induction false} PartialRow(sources: seq<Sketch>, weights: seq<int>, n: nat, width: nat, depth: nat, r: nat)
    requires n <= |sources| == |weights| && r < depth
    requires forall i :: 0 <= i < |sources| ==> Sound(sources[i]) && SameSize(sources[i], width, depth)
    ensures Sum(Partial(sources, weights, n, r * width, width)) == Weighted(CountOf(), sources, weights, n)
    decreases n
  {
    hide Sum, Balanced, Weighted;
    var lo := r * width;
    var c := Partial(sources, weights, n, lo, width);
    if n == 0 {
      forall i | 0 <= i < width ensures c[i] == 0 { WeightedNone(CellOf(lo + i), sources, weights); }
      SumZero(c);
      WeightedNone(CountOf(), sources, weights);
    } else {
      var k := n - 1;
      var s, w := sources[k], weights[k];
      PartialRow(sources, weights, k, width, depth, r);
      RowFits(width, depth, r);
      var a, b := Partial(sources, weights, k, lo, width), Row(s.cells, width, r);
      forall i | 0 <= i < width ensures c[i] == a[i] + b[i] * w {
        WeightedNext(CellOf(lo + i), sources, weights, k);
      }
      SumLinear(a, b, c, w);
      SourceRow(s, r);
      WeightedNext(CountOf(), sources, weights, k);
    }
  }

  lemma SourceRow(s: Sketch, r: nat)
    requires Sound(s) && r < s.depth
    ensures r * s.width + s.width <= |s.cells| && Sum(Row(s.cells, s.width, r)) == s.count
  {
    hide Sum;
    RowFits(s.width, s.depth, r);
    assert RowSum(s, r) == s.count;
  }

  lemma MergeBalanced(s: Sketch, sources: seq<Sketch>, weights: seq<int>)
    requires |sources| == |weights| && |s.cells| == s.depth * s.width && IsMerge(s, sources, weights)
    requires forall i :: 0 <= i < |sources| ==> Sound(sources[i]) && SameSize(sources[i], s.width, s.depth)
    ensures Balanced(s)
  {
    hide Sum, Weighted, Sound;
    forall r | 0 <= r < s.depth
      ensures RowSum(s, r) == s.count
    {
      RowFits(s.width, s.depth, r);
      PartialRow(sources, weights, |sources|, s.width, s.depth, r);
      assert Row(s.cells, s.width, r) == Partial(sources, weights, |sources|, r * s.width, s.width);
    }
  }

  // ---- no underestimation ----

  /** What really came to the merged sketch. */
  ghost function MergedTally(tallies: seq<Tally>, weights: seq<int>, n: nat, x: Item): int
    requires n <= |tallies| == |weights|
  {
    if n == 0 then 0 else MergedTally(tallies, weights, n - 1, x) + tallies[n - 1](x) * weights[n - 1]
  }

  /** A count of things is never below zero. */
  function Clamp(n: int): nat { if n >= 0 then n else 0 }

  lemma ProductGrows(a: nat, b: nat, w: int)
    requires a <= b && w >= 0
    ensures 0 <= a * w <= b * w
  {
    MulMono(a, b, w);
  }

  // ---- weights of both signs ----

  /** A sketch of one counter that items reached `c` times. */
  function OneCounter(c: nat): Sketch { Sketch(1, 1, c, [c]) }

  lemma OneCell(c: nat)
    requires c <= MAX_UINT32
    ensures Sound(OneCounter(c))
  {
    var s := OneCounter(c);
    assert Row(s.cells, 1, 0) == s.cells;
    assert Sum(s.cells) == c by { assert s.cells[..0] == []; }
  }

  function Ones(counts: seq<nat>): (s: seq<Sketch>)
    ensures |s| == |counts| && forall k :: 0 <= k < |counts| ==> s[k] == OneCounter(counts[k])
  {
    seq(|counts|, k requires 0 <= k < |counts| => OneCounter(counts[k]))
  }

  /** Counts that weights of both signs cancel against each other: the merge of single counters is
      accepted, and a source of each sign counts something. */
  ghost predicate Cancels(weights: seq<int>, counts: seq<nat>)
  {
    && |counts| == |weights| && (forall k :: 0 <= k < |counts| ==> counts[k] <= MAX_UINT32)
    && Accepted(OneCounter(0), Ones(counts), weights)
    && (exists i :: 0 <= i < |weights| && weights[i] > 0 && counts[i] > 0)
    && (exists j :: 0 <= j < |weights| && weights[j] < 0 && counts[j] > 0)
  }

  ghost predicate CanCancel(weights: seq<int>)
  {
    exists counts :: Cancels(weights, counts)
  }

  /** Unless its weights can cancel counts, an accepted merge counts no item too low. */
  lemma MergeCovers(s: Sketch, hash: RowHash, sources: seq<Sketch>, weights: seq<int>, tallies: seq<Tally>, t: Tally)
    requires |sources| == |weights| == |tallies| && Shape(s) && IsMerge(s, sources, weights)
    requires Accepted(s, sources, weights)
    requires forall i :: 0 <= i < |sources| ==> Sound(sources[i]) && Covers(sources[i], hash, tallies[i])
    requires forall x :: t(x) == Clamp(MergedTally(tallies, weights, |tallies|, x))
    requires !CanCancel(weights)
    ensures Covers(s, hash, t)
  {
    hide Weighted, MergedTally, Loc, Balanced, IsMerge, Accepted, CanCancel;
    forall x: Item, r: nat | r < s.depth
      ensures t(x) <= s.cells[Loc(s, hash, x, r)]
    {
      if s.cells[Loc(s, hash, x, r)] < t(x) { UndercountCancels(s, hash, sources, weights, tallies, x, r); }
    }
  }

  /** Only when its weights can cancel counts does an accepted merge count an item too low. */
  lemma UndercountCancels(s: Sketch, hash: RowHash, sources: seq<Sketch>, weights: seq<int>, tallies: seq<Tally>,
                          x: Item, r: nat)
    requires |sources| == |weights| == |tallies| && Shape(s) && IsMerge(s, sources, weights)
    requires Accepted(s, sources, weights)
    requires forall i :: 0 <= i < |sources| ==> Sound(sources[i]) && Covers(sources[i], hash, tallies[i])
    requires r < s.depth && s.cells[Loc(s, hash, x, r)] < MergedTally(tallies, weights, |tallies|, x)
    ensures CanCancel(weights)
  {
    hide Weighted, MergedTally, Loc, Running, Balanced, CountFits, CellFits;
    var loc := Loc(s, hash, x, r);
    forall i | 0 <= i < |sources|
      ensures loc < |sources[i].cells| && tallies[i](x) <= sources[i].cells[loc] <= sources[i].count
    {
      SameLoc(sources[i], s, hash, x, r);
      CellBound(sources[i], loc);
    }
    var counts := seq(|sources|, i requires 0 <= i < |sources| => sources[i].cells[loc]);
    ColumnAccepted(s, sources, weights, loc, counts);
    var i := PositiveTerm(tallies, weights, |weights|, x);
    var j := LoweredTerm(sources, weights, tallies, |weights|, x, loc);
    assert counts[i] > 0 && counts[j] > 0;
    assert Cancels(weights, counts);
  }

  /** A column of accepted sources, taken as single counters, is accepted. */
  lemma ColumnAccepted(s: Sketch, sources: seq<Sketch>, weights: seq<int>, loc: nat, counts: seq<nat>)
    requires Accepted(s, sources, weights) && loc < |s.cells| && |counts| == |sources|
    requires forall i :: 0 <= i < |sources| ==>
      loc < |sources[i].cells| && counts[i] == sources[i].cells[loc] && counts[i] <= sources[i].count
    ensures Accepted(OneCounter(0), Ones(counts), weights)
  {
    hide Weighted;
    var ones := Ones(counts);
    assert CellFits(sources, weights, loc);
    forall n {:trigger Weighted(CountOf(), ones, weights, n)} | 0 <= n <= |counts|
      ensures Weighted(CountOf(), ones, weights, n) == Weighted(CellOf(0), ones, weights, n) ==
        Weighted(CellOf(loc), sources, weights, n)
    {
      SameSums(CellOf(0), CountOf(), ones, ones, weights, n);
      SameSums(CellOf(loc), CountOf(), sources, ones, weights, n);
    }
    forall i | 0 <= i < |counts| ensures Checked(ones[i].count, weights[i]) {
      CheckedLess(sources[i].count, counts[i], weights[i]);
    }
    assert forall n {:trigger Weighted(CellOf(0), ones, weights, n)} :: 0 <= n <= |counts| ==>
      Weighted(CellOf(0), ones, weights, n) == Weighted(CountOf(), ones, weights, n);
  }

  lemma CheckedLess(count: nat, c: nat, w: int)
    requires Checked(count, w) && c <= count
    ensures Checked(c, w)
  {
  }

  lemma {:induction false} SameSums(f: Sketch -> int, g: Sketch -> int, a: seq<Sketch>, b: seq<Sketch>,
                                    weights: seq<int>, n: nat)
    requires n <= |a| == |b| == |weights| && forall i :: 0 <= i < |a| ==> f(a[i]) == g(b[i])
    ensures Weighted(f, a, weights, n) == Weighted(g, b, weights, n)
  {
    if n > 0 { SameSums(f, g, a, b, weights, n - 1); }
  }

  /** A positive sum has a term with a positive weight and tally. */
  lemma {:induction false} PositiveTerm(tallies: seq<Tally>, weights: seq<int>, n: nat, x: Item) returns (i: nat)
    requires n <= |tallies| == |weights| && MergedTally(tallies, weights, n, x) > 0
    ensures i < n && weights[i] > 0 && tallies[i](x) > 0
  {
    i := n - 1;
    if weights[i] <= 0 || tallies[i](x) == 0 {
      if weights[i] <= 0 { NonNegativeProduct(tallies[i](x), -weights[i]); }
      i := PositiveTerm(tallies, weights, n - 1, x);
    }
  }

  /** A merged counter below the merged tally has a negative weight on a counter that is not zero. */
  lemma {:induction false} LoweredTerm(sources: seq<Sketch>, weights: seq<int>, tallies: seq<Tally>, n: nat, x: Item,
                                       loc: nat)
    returns (j: nat)
    requires n <= |sources| == |weights| == |tallies|
    requires forall i :: 0 <= i < |sources| ==> loc < |sources[i].cells| && tallies[i](x) <= sources[i].cells[loc]
    requires Weighted(CellOf(loc), sources, weights, n) < MergedTally(tallies, weights, n, x)
    ensures j < n && weights[j] < 0 && sources[j].cells[loc] > 0
  {
    j := n - 1;
    if weights[j] >= 0 {
      ProductGrows(tallies[j](x), sources[j].cells[loc], weights[j]);
      j := LoweredTerm(sources, weights, tallies, n - 1, x, loc);
    } else if sources[j].cells[loc] == 0 {
      j := LoweredTerm(sources, weights, tallies, n - 1, x, loc);
    }
  }

  /** What came to the sources: one item to those of positive weight, another one to the others. */
  ghost function Split(weights: seq<int>, counts: seq<nat>, x: Item, y: Item): (ts: seq<Tally>)
    requires |weights| == |counts| && x != y
    ensures |ts| == |counts|
    ensures forall k, z :: 0 <= k < |counts| ==>
      ts[k](z) == if z == (if weights[k] > 0 then x else y) then counts[k] else 0
  {
    seq(|counts|, k requires 0 <= k < |counts| =>
      (z: Item) => if z == (if weights[k] > 0 then x else y) then counts[k] else 0)
  }

  lemma {:induction false} SplitRises(weights: seq<int>, counts: seq<nat>, x: Item, y: Item, n: nat)
    requires n <= |weights| == |counts| && x != y
    ensures Weighted(CellOf(0), Ones(counts), weights, n) <= MergedTally(Split(weights, counts, x, y), weights, n, x)
    ensures (exists j :: 0 <= j < n && weights[j] < 0 && counts[j] > 0) ==>
      Weighted(CellOf(0), Ones(counts), weights, n) < MergedTally(Split(weights, counts, x, y), weights, n, x)
  {
    if n > 0 {
      var k := n - 1;
      SplitRises(weights, counts, x, y, k);
      WeightedNext(CellOf(0), Ones(counts), weights, k);
      if weights[k] <= 0 { NonNegativeProduct(counts[k], -weights[k]); }
      if weights[k] < 0 && counts[k] > 0 { ProductPositive(counts[k], -weights[k]); }
    }
  }

  lemma ProductPositive(d: nat, b: int)
    requires d > 0 && b > 0
    ensures d * b > 0
  {
  }

  /** Whenever the weights can cancel counts, there is a merge that the code accepts and that counts an
      item too low, although none of its sources does. */
  method CancelsUndercount(weights: seq<int>, counts: seq<nat>, hash: RowHash, x: Item, y: Item)
    returns (merged: Sketch, ghost tallies: seq<Tally>)
    requires (forall k :: 0 <= k < |weights| ==> Int64(weights[k])) && Cancels(weights, counts) && x != y
    ensures Accepted(OneCounter(0), Ones(counts), weights) && |tallies| == |counts|
    ensures forall k :: 0 <= k < |counts| ==> Sound(Ones(counts)[k]) && Covers(Ones(counts)[k], hash, tallies[k])
    ensures Shape(merged) && IsMerge(merged, Ones(counts), weights)
    ensures Query(merged, hash, x) < MergedTally(tallies, weights, |weights|, x)
  {
    hide Weighted, Balanced, Accepted, MergedTally;
    var sources := Ones(counts);
    tallies := Split(weights, counts, x, y);
    forall k | 0 <= k < |counts|
      ensures Sound(sources[k]) && Covers(sources[k], hash, tallies[k])
    {
      OneCell(counts[k]);
    }
    OneCell(0);
    var r := Merge(OneCounter(0), sources, weights);
    merged := r.value;
    QueryOne(merged, hash, x);
    SplitRises(weights, counts, x, y, |weights|);
  }

  lemma QueryOne(s: Sketch, hash: RowHash, x: Item)
    requires Shape(s) && s.width == s.depth == 1
    ensures Query(s, hash, x) == s.cells[0]
  {
    assert Loc(s, hash, x, 0) == 0;
    assert Least(s, hash, x, 0) == MAX_UINT32;
  }

  /** Counts for one positive and one negative weight whose weighted sum lands in the range of a counter. */
  lemma Balance(a: nat, b: nat) returns (c: nat, d: nat)
    requires 0 < a <= MAX_UINT32 && 0 < b <= MAX_UINT32
    ensures 0 < c <= MAX_UINT32 && 0 < d <= MAX_UINT32 && 0 <= c * a - d * b <= MAX_UINT32
    ensures c * a <= 2 * MAX_UINT32 && d * b <= 2 * MAX_UINT32
  {
    if a >= b {
      c, d := 1, a / b;
      assert a == d * b + a % b;
      if d == 0 { assert false; }
      MulMono(1, b, d);
    } else {
      c, d := (b + a - 1) / a, 1;
      assert b + a - 1 == c * a + (b + a - 1) % a;
      if c == 0 { assert false; }
      if c > b { MulMono(b + 1, c, a); MulMono(1, a, b); assert false; }
    }
  }

  lemma {:induction false} TwoTerms(f: Sketch -> int, counts: seq<nat>, weights: seq<int>, i: nat, j: nat, n: nat)
    requires n <= |counts| == |weights| && i < |counts| && j < |counts| && i != j
    requires forall m: nat :: f(OneCounter(m)) == m
    requires forall k :: 0 <= k < |counts| && k != i && k != j ==> counts[k] == 0
    ensures Weighted(f, Ones(counts), weights, n) ==
      (if i < n then counts[i] * weights[i] else 0) + (if j < n then counts[j] * weights[j] else 0)
  {
    if n > 0 { TwoTerms(f, counts, weights, i, j, n - 1); }
  }

  /** Weights of both signs within 32 bits can always cancel counts. */
  lemma MixedSigns(weights: seq<int>, i: nat, j: nat) returns (counts: seq<nat>)
    requires i < |weights| && j < |weights| && 0 < weights[i] <= MAX_UINT32 && 0 < -weights[j] <= MAX_UINT32
    ensures Cancels(weights, counts)
  {
    hide Weighted;
    var c, d := Balance(weights[i], -weights[j]);
    counts := seq(|weights|, k => if k == i then c else if k == j then d else 0);
    var ones := Ones(counts);
    NonNegativeProduct(c, weights[i]);
    NonNegativeProduct(d, -weights[j]);
    assert d * weights[j] == -(d * -weights[j]);
    forall n {:trigger Weighted(CountOf(), ones, weights, n)} | 0 <= n <= |weights|
      ensures Weighted(CountOf(), ones, weights, n) ==
        (if i < n then c * weights[i] else 0) + (if j < n then d * weights[j] else 0)
    {
      TwoTerms(CountOf(), counts, weights, i, j, n);
    }
    forall n {:trigger Weighted(CellOf(0), ones, weights, n)} | 0 <= n <= |weights|
      ensures Weighted(CellOf(0), ones, weights, n) ==
        (if i < n then c * weights[i] else 0) + (if j < n then d * weights[j] else 0)
    {
      TwoTerms(CellOf(0), counts, weights, i, j, n);
    }
    forall k | 0 <= k < |weights| ensures Checked(ones[k].count, weights[k]) {
      if k == i { DivMul(c, weights[i], MAX_INT64); }
      else if k == j { DivMul(d, -weights[j], MAX_INT64); }
      else { CheckedZero(weights[k]); }
    }
  }

  lemma CheckedZero(w: int)
    ensures Checked(0, w)
  {
  }

  /** No two weights have different signs. */
  predicate OneSign(weights: seq<int>)
  {
    (forall i :: 0 <= i < |weights| ==> weights[i] >= 0) || (forall i :: 0 <= i < |weights| ==> weights[i] <= 0)
  }

  /** Weights of one sign cancel nothing. */
  lemma OneSignKeeps(weights: seq<int>)
    requires OneSign(weights)
    ensures !CanCancel(weights)
  {
  }
}
