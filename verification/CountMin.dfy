/** Count-Min sketches: counters in rows of one flat list, every row summing to the total count. */
module CountMin {
  import opened Words
  import opened Sums

  const MAX_UINT32 := 0xFFFF_FFFF
  const MAX_CELLS := 0x7F_FFF8

  type Item = seq<byte>

  /** The hash of an item in a row. */
  type RowHash = (Item, nat) -> nat

  datatype Sketch = Sketch(width: nat, depth: nat, count: nat, cells: seq<nat>)

  /** Dimensions and ranges that decoding checks. */
  predicate Shape(s: Sketch)
  {
    && s.width >= 1 && s.depth >= 1 && |s.cells| == s.depth * s.width <= MAX_CELLS && s.count <= MAX_INT64
    && forall i :: 0 <= i < |s.cells| ==> s.cells[i] <= MAX_UINT32
  }

  // ---- rows ----

  lemma RowFits(width: nat, depth: nat, row: nat)
    requires row < depth
    ensures row * width + width <= depth * width
  {
    var e := depth - row - 1;
    assert depth * width == row * width + width + e * width;
    assert e * width >= 0;
  }

  lemma RowsApart(width: nat, r: nat, row: nat)
    requires r != row
    ensures r * width + width <= row * width || row * width + width <= r * width
  {
    if r < row { RowFits(width, row, r); } else { RowFits(width, r, row); }
  }

  function Row(cells: seq<nat>, width: nat, r: nat): seq<nat>
    requires r * width + width <= |cells|
  {
    cells[r * width..r * width + width]
  }

  /** Every row sums to the count. */
  ghost predicate Balanced(s: Sketch)
    requires |s.cells| == s.depth * s.width
  {
    forall r {:trigger RowSum(s, r)} :: 0 <= r < s.depth ==> RowSum(s, r) == s.count
  }

  ghost function RowSum(s: Sketch, r: nat): int
    requires |s.cells| == s.depth * s.width && r < s.depth
  {
    RowFits(s.width, s.depth, r);
    Sum(Row(s.cells, s.width, r))
  }

  ghost predicate Sound(s: Sketch) { Shape(s) && Balanced(s) }

  lemma {:induction false} SumBounds(s: seq<nat>, i: nat)
    requires i < |s|
    ensures s[i] <= Sum(s)
  {
    SumNat(s[..|s| - 1]);
    if i < |s| - 1 { SumBounds(s[..|s| - 1], i); }
  }

  lemma {:induction false} SumNat(s: seq<nat>)
    ensures Sum(s) >= 0
  {
    if s != [] { SumNat(s[..|s| - 1]); }
  }

  lemma CellAt(s: Sketch, i: nat) returns (r: nat)
    requires s.width >= 1 && |s.cells| == s.depth * s.width && i < |s.cells|
    ensures r < s.depth && r * s.width <= i < r * s.width + s.width
  {
    r := i / s.width;
    assert i == s.width * r + i % s.width;
    if r >= s.depth {
      MulMono(s.depth, r, s.width);
      assert false;
    }
  }

  /** No counter exceeds the count. */
  lemma CellBound(s: Sketch, i: nat)
    requires Sound(s) && i < |s.cells|
    ensures s.cells[i] <= s.count
  {
    hide Sum;
    var r := CellAt(s, i);
    assert RowSum(s, r) == s.count;
    RowFits(s.width, s.depth, r);
    var row := Row(s.cells, s.width, r);
    assert row[i - r * s.width] == s.cells[i];
    SumBounds(row, i - r * s.width);
  }

  /** Changing one counter changes its row only. */
  lemma RowUpdate(cells: seq<nat>, width: nat, depth: nat, row: nat, col: nat, v: nat, r: nat)
    requires |cells| == depth * width && row < depth && col < width && r < depth
    ensures row * width + col < |cells| && r * width + width <= |cells|
    ensures Row(cells[row * width + col := v], width, r) ==
      if r == row then Row(cells, width, r)[col := v] else Row(cells, width, r)
  {
    RowFits(width, depth, row);
    RowFits(width, depth, r);
    if r != row { RowsApart(width, r, row); }
  }

  // ---- one increment ----

  function Column(hash: RowHash, item: Item, row: nat, width: nat): (c: nat)
    requires width >= 1
    ensures c < width
  {
    hash(item, row) % width
  }

  function Loc(s: Sketch, hash: RowHash, item: Item, row: nat): (loc: nat)
    requires s.width >= 1 && row < s.depth && |s.cells| == s.depth * s.width
    ensures loc < |s.cells|
  {
    RowFits(s.width, s.depth, row);
    row * s.width + Column(hash, item, row, s.width)
  }

  /** The counters after `value` is added to the item's counter in the first `n` rows. */
  function Bumped(s: Sketch, hash: RowHash, item: Item, value: nat, n: nat): (cells: seq<nat>)
    requires s.width >= 1 && n <= s.depth && |s.cells| == s.depth * s.width
    ensures |cells| == |s.cells|
  {
    if n == 0 then s.cells
    else
      var before := Bumped(s, hash, item, value, n - 1);
      var loc := Loc(s, hash, item, n - 1);
      before[loc := before[loc] + value]
  }

  lemma {:induction false} BumpedRow(s: Sketch, hash: RowHash, item: Item, value: nat, n: nat, r: nat)
    requires s.width >= 1 && n <= s.depth && |s.cells| == s.depth * s.width && r < s.depth
    ensures r * s.width + s.width <= |s.cells|
    ensures |Row(s.cells, s.width, r)| == s.width
    ensures var row := Row(s.cells, s.width, r); var c := Column(hash, item, r, s.width);
      Row(Bumped(s, hash, item, value, n), s.width, r) == if r < n then row[c := row[c] + value] else row
    decreases n
  {
    hide Column, Row, Bumped, Loc;
    RowFits(s.width, s.depth, r);
    BumpedNone(s, hash, item, value);
    RowSize(s.cells, s.width, r);
    if n > 0 {
      var k := n - 1;
      BumpedRow(s, hash, item, value, k, r);
      var before, col := Bumped(s, hash, item, value, k), Column(hash, item, k, s.width);
      BumpedNext(s, hash, item, value, k);
      RowUpdate(before, s.width, s.depth, k, col, before[k * s.width + col] + value, r);
      RowFits(s.width, s.depth, k);
      RowCell(before, s.width, k, col);
    }
  }

  lemma BumpedNone(s: Sketch, hash: RowHash, item: Item, value: nat)
    requires s.width >= 1 && |s.cells| == s.depth * s.width
    ensures Bumped(s, hash, item, value, 0) == s.cells
  {
  }

  lemma BumpedNext(s: Sketch, hash: RowHash, item: Item, value: nat, k: nat)
    requires s.width >= 1 && k < s.depth && |s.cells| == s.depth * s.width
    ensures var loc := k * s.width + Column(hash, item, k, s.width);
      var before := Bumped(s, hash, item, value, k);
      loc < |before| && Bumped(s, hash, item, value, k + 1) == before[loc := before[loc] + value]
  {
    hide Column;
    RowFits(s.width, s.depth, k);
  }

  lemma RowSize(cells: seq<nat>, width: nat, r: nat)
    requires r * width + width <= |cells|
    ensures |Row(cells, width, r)| == width
  {
  }

  lemma RowCell(cells: seq<nat>, width: nat, r: nat, c: nat)
    requires r * width + width <= |cells| && c < width
    ensures |Row(cells, width, r)| == width && Row(cells, width, r)[c] == cells[r * width + c]
  {
  }

  /** Before its own row is reached, a counter still has its old value. */
  lemma BumpedBefore(s: Sketch, hash: RowHash, item: Item, value: nat, n: nat, r: nat)
    requires s.width >= 1 && n <= r < s.depth && |s.cells| == s.depth * s.width
    ensures Bumped(s, hash, item, value, n)[Loc(s, hash, item, r)] == s.cells[Loc(s, hash, item, r)]
  {
    hide Bumped;
    BumpedRow(s, hash, item, value, n, r);
    var c := Column(hash, item, r, s.width);
    var b := Bumped(s, hash, item, value, n);
    assert Row(b, s.width, r)[c] == Row(s.cells, s.width, r)[c];
  }

  function Increased(s: Sketch, hash: RowHash, item: Item, value: nat): Sketch
    requires s.width >= 1 && |s.cells| == s.depth * s.width
  {
    s.(count := s.count + value, cells := Bumped(s, hash, item, value, s.depth))
  }

  /** An increment keeps every row equal to the count. */
  lemma IncreaseBalanced(s: Sketch, hash: RowHash, item: Item, value: nat)
    requires s.width >= 1 && |s.cells| == s.depth * s.width && Balanced(s)
    ensures Balanced(Increased(s, hash, item, value))
  {
    hide Bumped, Sum;
    var t := Increased(s, hash, item, value);
    forall r | 0 <= r < t.depth
      ensures RowSum(t, r) == t.count
    {
      assert RowSum(s, r) == s.count;
      BumpedRow(s, hash, item, value, s.depth, r);
      var row, c := Row(s.cells, s.width, r), Column(hash, item, r, s.width);
      SumUpdate(row, c, row[c] + value);
    }
  }

  // ---- queries ----

  /** The least of the item's counters in the first `n` rows. */
  function Least(s: Sketch, hash: RowHash, item: Item, n: nat): nat
    requires s.width >= 1 && n <= s.depth && |s.cells| == s.depth * s.width
  {
    if n == 0 then MAX_UINT32
    else
      var m, c := Least(s, hash, item, n - 1), s.cells[Loc(s, hash, item, n - 1)];
      if c < m then c else m
  }

  function Query(s: Sketch, hash: RowHash, item: Item): nat
    requires s.width >= 1 && |s.cells| == s.depth * s.width
  {
    Least(s, hash, item, s.depth)
  }

  /** How often each item really came. */
  type Tally = Item -> nat

  /** No counter of an item is below what really came. */
  ghost predicate Covers(s: Sketch, hash: RowHash, t: Tally)
    requires s.width >= 1 && |s.cells| == s.depth * s.width
  {
    forall x: Item, r: nat :: r < s.depth ==> t(x) <= s.cells[Loc(s, hash, x, r)]
  }

  /** A query never underestimates: it is at least every bound on all the counters, and is reached. */
  lemma {:induction false} LeastAbove(s: Sketch, hash: RowHash, item: Item, n: nat, b: nat)
    requires s.width >= 1 && n <= s.depth && |s.cells| == s.depth * s.width && b <= MAX_UINT32
    requires forall r: nat :: r < n ==> b <= s.cells[Loc(s, hash, item, r)]
    ensures b <= Least(s, hash, item, n)
  {
    if n > 0 { LeastAbove(s, hash, item, n - 1, b); }
  }

  lemma {:induction false} LeastBelow(s: Sketch, hash: RowHash, item: Item, n: nat, r: nat)
    requires s.width >= 1 && r < n <= s.depth && |s.cells| == s.depth * s.width
    ensures Least(s, hash, item, n) <= s.cells[Loc(s, hash, item, r)]
  {
    if r < n - 1 { LeastBelow(s, hash, item, n - 1, r); }
  }

  /** What really came is at most the answer, and the answer is at most the count. */
  lemma QueryBounds(s: Sketch, hash: RowHash, t: Tally, item: Item)
    requires Sound(s) && Covers(s, hash, t)
    ensures t(item) <= Query(s, hash, item) <= s.count
  {
    hide Balanced, Loc;
    assert t(item) <= s.cells[Loc(s, hash, item, 0)];
    LeastAbove(s, hash, item, s.depth, t(item));
    LeastBelow(s, hash, item, s.depth, 0);
    CellBound(s, Loc(s, hash, item, 0));
  }

  function Added(t: Tally, item: Item, value: nat): Tally
  {
    x => t(x) + if x == item then value else 0
  }

  lemma BumpedCell(s: Sketch, hash: RowHash, item: Item, value: nat, x: Item, r: nat)
    requires s.width >= 1 && |s.cells| == s.depth * s.width && r < s.depth
    ensures var b := Bumped(s, hash, item, value, s.depth); var loc := Loc(s, hash, x, r);
      b[loc] == s.cells[loc] + if Column(hash, x, r, s.width) == Column(hash, item, r, s.width) then value else 0
  {
    hide Bumped, Column, Row;
    BumpedRow(s, hash, item, value, s.depth, r);
    var c := Column(hash, x, r, s.width);
    RowCell(Bumped(s, hash, item, value, s.depth), s.width, r, c);
    RowCell(s.cells, s.width, r, c);
  }

  lemma IncreaseCovers(s: Sketch, hash: RowHash, item: Item, value: nat, t: Tally)
    requires s.width >= 1 && |s.cells| == s.depth * s.width && Covers(s, hash, t)
    ensures Covers(Increased(s, hash, item, value), hash, Added(t, item, value))
  {
    hide Bumped, Column;
    var u, t' := Increased(s, hash, item, value), Added(t, item, value);
    forall x: Item, r: nat | r < s.depth
      ensures t'(x) <= u.cells[Loc(u, hash, x, r)]
    {
      assert t(x) <= s.cells[Loc(s, hash, x, r)];
      BumpedCell(s, hash, item, value, x, r);
      assert Loc(u, hash, x, r) == Loc(s, hash, x, r);
    }
  }

  // ---- the mutable sketch ----

  class Counter {
    const width: nat
    const depth: nat
    const hash: RowHash
    const cells: array<nat>
    var count: nat

    ghost function Value(): Sketch
      reads this, cells
    {
      Sketch(width, depth, count, cells[..])
    }

    constructor (s: Sketch, hash: RowHash)
      ensures Value() == s && this.hash == hash && fresh(cells)
    {
      width, depth, count, this.hash := s.width, s.depth, s.count, hash;
      cells := new nat[|s.cells|](i requires 0 <= i < |s.cells| => s.cells[i]);
      new;
      assert cells[..] == s.cells;
    }

    method Locate(item: Item, row: nat) returns (loc: nat)
      requires width >= 1 && row < depth && cells.Length == depth * width
      ensures loc == Loc(Value(), hash, item, row)
    {
      return row * width + Column(hash, item, row, width);
    }

    /** CMS.QUERY of one item. */
    method QueryItem(item: Item) returns (min: nat)
      requires Shape(Value())
      ensures min == Query(Value(), hash, item)
    {
      min := MAX_UINT32;
      for row := 0 to depth
        invariant min == Least(Value(), hash, item, row)
      {
        var loc := Locate(item, row);
        assert cells[loc] == Value().cells[loc];
        if cells[loc] < min { min := cells[loc]; }
      }
    }

    /** CMS.INCRBY of one item: refused exactly when the count or a counter would overflow, and then
        nothing changed. */
    method Increment(item: Item, value: nat) returns (r: Option<nat>)
      requires Shape(Value())
      modifies `count, cells
      ensures Shape(Value())
      ensures r.None? <==> value > 0 && Overflows(old(Value()), hash, item, value)
      ensures r.None? ==> Value() == old(Value())
      ensures r.Some? ==> Value() == Increased(old(Value()), hash, item, value) && r.value == Query(Value(), hash, item)
    {
      hide Bumped, Least, Loc;
      ghost var s := Value();
      if value == 0 {
        BumpNothing(s, hash, item, depth);
        var q := QueryItem(item);
        return Some(q);
      }
      if value > MAX_INT64 - count { return None; }
      var ok := CheckRoom(item, value);
      if !ok { return None; }
      BumpAll(item, value);
      count := count + value;
      IncreaseShape(s, hash, item, value);
      var q := QueryItem(item);
      return Some(q);
    }

    method CheckRoom(item: Item, value: nat) returns (ok: bool)
      requires Shape(Value())
      ensures ok <==> forall r: nat :: r < depth ==> Value().cells[Loc(Value(), hash, item, r)] + value <= MAX_UINT32
    {
      hide Loc;
      for row := 0 to depth
        invariant forall r: nat :: r < row ==> Value().cells[Loc(Value(), hash, item, r)] + value <= MAX_UINT32
      {
        var loc := Locate(item, row);
        assert cells[loc] == Value().cells[loc];
        if value > MAX_UINT32 - cells[loc] { return false; }
      }
      return true;
    }

    method BumpAll(item: Item, value: nat)
      requires Shape(Value())
      requires forall r: nat :: r < depth ==> Value().cells[Loc(Value(), hash, item, r)] + value <= MAX_UINT32
      modifies cells
      ensures cells[..] == Bumped(old(Value()), hash, item, value, depth)
    {
      hide Loc;
      ghost var s := Value();
      for row := 0 to depth
        invariant cells[..] == Bumped(s, hash, item, value, row)
      {
        BumpedBefore(s, hash, item, value, row, row);
        var loc := Locate(item, row);
        SameLoc(Value(), s, hash, item, row);
        cells[loc] := (cells[loc] + value) % TWO32;
      }
    }
  }

  lemma SameLoc(s: Sketch, t: Sketch, hash: RowHash, item: Item, row: nat)
    requires s.width == t.width >= 1 && s.depth == t.depth && row < s.depth
    requires |s.cells| == |t.cells| == s.depth * s.width
    ensures Loc(s, hash, item, row) == Loc(t, hash, item, row)
  {
  }

  ghost predicate Overflows(s: Sketch, hash: RowHash, item: Item, value: nat)
    requires s.width >= 1 && |s.cells| == s.depth * s.width
  {
    value > MAX_INT64 - s.count || exists r: nat :: r < s.depth && s.cells[Loc(s, hash, item, r)] + value > MAX_UINT32
  }

  lemma {:induction false} BumpNothing(s: Sketch, hash: RowHash, item: Item, n: nat)
    requires s.width >= 1 && n <= s.depth && |s.cells| == s.depth * s.width
    ensures Bumped(s, hash, item, 0, n) == s.cells
  {
    if n > 0 { BumpNothing(s, hash, item, n - 1); }
  }

  lemma IncreaseShape(s: Sketch, hash: RowHash, item: Item, value: nat)
    requires Shape(s) && !Overflows(s, hash, item, value)
    ensures Shape(Increased(s, hash, item, value))
  {
    BumpedRange(s, hash, item, value, s.depth);
  }

  lemma {:induction false} BumpedRange(s: Sketch, hash: RowHash, item: Item, value: nat, n: nat)
    requires Shape(s) && n <= s.depth && !Overflows(s, hash, item, value)
    ensures forall i :: 0 <= i < |s.cells| ==> Bumped(s, hash, item, value, n)[i] <= MAX_UINT32
  {
    hide Loc;
    if n > 0 {
      BumpedRange(s, hash, item, value, n - 1);
      BumpedBefore(s, hash, item, value, n - 1, n - 1);
    }
  }
}
