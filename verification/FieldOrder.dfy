/** Binary-safe fields, their byte order, and hash pairs kept sorted by field. */
module FieldOrder {
  import opened Words

  type Field = seq<byte>

  datatype Pair = Pair(field: Field, value: seq<byte>, expiresAt: int)

  /** `bytes.Compare(a, b) < 0` */
  predicate Less(a: Field, b: Field)
  {
    b != [] && (a == [] || a[0] < b[0] || (a[0] == b[0] && Less(a[1..], b[1..])))
  }

  lemma {:induction false} LessTransitive(a: Field, b: Field, c: Field)
    requires Less(a, b) && Less(b, c)
    ensures Less(a, c)
  {
    if a != [] && a[0] == b[0] && b[0] == c[0] { LessTransitive(a[1..], b[1..], c[1..]); }
  }

  lemma {:induction false} LessTotal(a: Field, b: Field)
    ensures !(Less(a, b) && Less(b, a))
    ensures a == b <==> !Less(a, b) && !Less(b, a)
  {
    if a != [] && b != [] && a[0] == b[0] {
      LessTotal(a[1..], b[1..]);
      assert a == [a[0]] + a[1..] && b == [b[0]] + b[1..];
    }
  }

  /** Strictly increasing fields: sorted without duplicates. */
  ghost predicate Sorted(p: seq<Pair>)
  {
    forall i, j {:trigger Less(p[i].field, p[j].field)} :: 0 <= i < j < |p| ==> Less(p[i].field, p[j].field)
  }

  datatype Entry = Entry(value: seq<byte>, expiresAt: int)

  /** The map a list of pairs stands for; later pairs win. */
  function ToMap(p: seq<Pair>): map<Field, Entry>
  {
    if p == [] then map[]
    else
      var last := p[|p| - 1];
      ToMap(p[..|p| - 1])[last.field := Entry(last.value, last.expiresAt)]
  }

  lemma {:induction false} ToMapHas(p: seq<Pair>, f: Field)
    ensures f in ToMap(p) <==> exists i :: 0 <= i < |p| && p[i].field == f
  {
    if p != [] {
      var n := |p| - 1;
      ToMapHas(p[..n], f);
      if f in ToMap(p[..n]) {
        var i :| 0 <= i < n && p[..n][i].field == f;
        assert p[i].field == f;
      }
      if i :| 0 <= i < n && p[i].field == f {
        assert p[..n][i].field == f;
      }
    }
  }

  ghost predicate Distinct(p: seq<Pair>)
  {
    forall i, j :: 0 <= i < j < |p| ==> p[i].field != p[j].field
  }

  lemma SortedDistinct(p: seq<Pair>)
    requires Sorted(p)
    ensures Distinct(p)
  {
    forall i, j | 0 <= i < j < |p|
      ensures p[i].field != p[j].field
    {
      assert Less(p[i].field, p[j].field);
      LessTotal(p[i].field, p[j].field);
    }
  }

  lemma {:induction false} ToMapAt(p: seq<Pair>, i: nat)
    requires Distinct(p) && i < |p|
    ensures p[i].field in ToMap(p) && ToMap(p)[p[i].field] == Entry(p[i].value, p[i].expiresAt)
  {
    var n := |p| - 1;
    if i < n {
      ToMapAt(p[..n], i);
      assert p[..n][i] == p[i];
    }
  }

  /** A sorted list is determined by its map. */
  lemma {:induction false} SortedUnique(p: seq<Pair>, q: seq<Pair>)
    requires Sorted(p) && Sorted(q) && ToMap(p) == ToMap(q)
    ensures p == q
    decreases |p|
  {
    SortedDistinct(p);
    SortedDistinct(q);
    if p == [] {
      if q != [] { ToMapAt(q, 0); }
    } else if q == [] {
      ToMapAt(p, 0);
    } else {
      var m, n := |p| - 1, |q| - 1;
      LastIsGreatest(p, q);
      assert ToMap(p[..m]) == ToMap(p) - {p[m].field} by { LastRemoved(p); }
      assert ToMap(q[..n]) == ToMap(q) - {q[n].field} by { LastRemoved(q); }
      SortedUnique(p[..m], q[..n]);
      ToMapAt(p, m);
      ToMapAt(q, n);
      assert p == p[..m] + [p[m]] && q == q[..n] + [q[n]];
    }
  }

  lemma LastIsNew(p: seq<Pair>)
    requires p != [] && Distinct(p)
    ensures p[|p| - 1].field !in ToMap(p[..|p| - 1])
  {
    var n := |p| - 1;
    ToMapHas(p[..n], p[n].field);
    forall i | 0 <= i < n
      ensures p[..n][i].field != p[n].field
    {
      assert p[..n][i] == p[i];
    }
  }

  lemma MapDrop<K, V>(m: map<K, V>, k: K, v: V)
    requires k !in m
    ensures m[k := v] - {k} == m
  {
  }

  lemma LastRemoved(p: seq<Pair>)
    requires p != [] && Distinct(p)
    ensures ToMap(p[..|p| - 1]) == ToMap(p) - {p[|p| - 1].field}
  {
    var last := p[|p| - 1];
    LastIsNew(p);
    MapDrop(ToMap(p[..|p| - 1]), last.field, Entry(last.value, last.expiresAt));
  }

  lemma NoneAboveLast(p: seq<Pair>, f: Field)
    requires Sorted(p) && p != [] && f in ToMap(p)
    ensures !Less(p[|p| - 1].field, f)
  {
    ToMapHas(p, f);
    var i :| 0 <= i < |p| && p[i].field == f;
    if i < |p| - 1 { assert Less(p[i].field, p[|p| - 1].field); }
    LessTotal(f, p[|p| - 1].field);
  }

  lemma LastIsGreatest(p: seq<Pair>, q: seq<Pair>)
    requires Sorted(p) && Sorted(q) && p != [] && q != [] && ToMap(p).Keys == ToMap(q).Keys
    ensures p[|p| - 1].field == q[|q| - 1].field
  {
    var f, g := p[|p| - 1].field, q[|q| - 1].field;
    SortedDistinct(p);
    SortedDistinct(q);
    ToMapAt(p, |p| - 1);
    ToMapAt(q, |q| - 1);
    NoneAboveLast(p, g);
    NoneAboveLast(q, f);
    LessTotal(f, g);
  }

  // ---- updates of a sorted list ----

  /** Replaces the pair of the same field, or puts the pair where its field belongs. */
  function Upsert(p: seq<Pair>, x: Pair): seq<Pair>
  {
    if p == [] then [x]
    else
      var n := |p| - 1;
      if p[n].field == x.field then p[..n] + [x]
      else if Less(p[n].field, x.field) then p + [x]
      else Upsert(p[..n], x) + [p[n]]
  }

  /** All fields of the list are below `f`. */
  ghost predicate Under(p: seq<Pair>, f: Field)
  {
    forall i {:trigger p[i]} :: 0 <= i < |p| ==> Less(p[i].field, f)
  }

  lemma SortedSnoc(p: seq<Pair>, x: Pair)
    ensures Sorted(p + [x]) <==> Sorted(p) && Under(p, x.field)
  {
    var q := p + [x];
    if Sorted(q) {
      forall i, j | 0 <= i < j < |p| ensures Less(p[i].field, p[j].field) { assert Less(q[i].field, q[j].field); }
      forall i | 0 <= i < |p| ensures Less(p[i].field, x.field) { assert Less(q[i].field, q[|p|].field); }
    }
    if Sorted(p) && Under(p, x.field) {
      forall i, j | 0 <= i < j < |q|
        ensures Less(q[i].field, q[j].field)
      {
        if j < |p| { assert Less(p[i].field, p[j].field); } else { assert Less(p[i].field, x.field); }
      }
    }
  }

  lemma {:induction false} UpsertUnder(p: seq<Pair>, x: Pair, f: Field)
    requires Under(p, f) && Less(x.field, f)
    ensures Under(Upsert(p, x), f)
  {
    if p != [] {
      var n := |p| - 1;
      assert Under(p[..n], f);
      UpsertUnder(p[..n], x, f);
    }
  }

  /** An upsert keeps the list sorted and is exactly a map update. */
  lemma {:induction false} UpsertKeeps(p: seq<Pair>, x: Pair)
    requires Sorted(p)
    ensures Sorted(Upsert(p, x))
    ensures ToMap(Upsert(p, x)) == ToMap(p)[x.field := Entry(x.value, x.expiresAt)]
  {
    hide Sorted, ToMap, Less, Under;
    if p == [] {
      SortedOne(x);
      ToMapSnoc([], x);
      assert [] + [x] == [x];
    } else {
      var n := |p| - 1;
      var last := p[n];
      assert p == p[..n] + [last];
      SortedSnoc(p[..n], last);
      ToMapSnoc(p[..n], last);
      if last.field == x.field {
        SortedSnoc(p[..n], x);
        ToMapSnoc(p[..n], x);
      } else if Less(last.field, x.field) {
        UnderBy(p, x.field);
        SortedSnoc(p, x);
        ToMapSnoc(p, x);
      } else {
        LessTotal(x.field, last.field);
        UpsertKeeps(p[..n], x);
        UpsertUnder(p[..n], x, last.field);
        SortedSnoc(Upsert(p[..n], x), last);
        ToMapSnoc(Upsert(p[..n], x), last);
      }
    }
  }

  lemma SortedOne(x: Pair)
    ensures Sorted([x])
  {
  }

  lemma ToMapSnoc(p: seq<Pair>, x: Pair)
    ensures ToMap(p + [x]) == ToMap(p)[x.field := Entry(x.value, x.expiresAt)]
  {
    assert (p + [x])[..|p|] == p;
  }

  lemma UnderBy(p: seq<Pair>, f: Field)
    requires Sorted(p) && p != [] && Less(p[|p| - 1].field, f)
    ensures Under(p, f)
  {
    var n := |p| - 1;
    forall i | 0 <= i < |p|
      ensures Less(p[i].field, f)
    {
      if i < n {
        assert Less(p[i].field, p[n].field);
        LessTransitive(p[i].field, p[n].field, f);
      }
    }
  }

  /** `sort.Search`: the first index whose field is not below `f`. */
  method Search(p: seq<Pair>, f: Field) returns (idx: nat)
    requires Sorted(p)
    ensures idx <= |p| && Under(p[..idx], f)
    ensures forall i :: idx <= i < |p| ==> !Less(p[i].field, f)
    ensures f in ToMap(p) <==> idx < |p| && p[idx].field == f
  {
    var lo, hi := 0, |p|;
    while lo < hi
      invariant lo <= hi <= |p|
      invariant Under(p[..lo], f)
      invariant forall i :: hi <= i < |p| ==> !Less(p[i].field, f)
    {
      var mid := (lo + hi) / 2;
      if Less(p[mid].field, f) {
        SortedPrefix(p, mid + 1);
        UnderBy(p[..mid + 1], f);
        lo := mid + 1;
      } else {
        NotBelow(p, mid, f);
        hi := mid;
      }
    }
    idx := lo;
    SearchFinds(p, f, idx);
  }

  lemma SortedPrefix(p: seq<Pair>, n: nat)
    requires Sorted(p) && n <= |p|
    ensures Sorted(p[..n]) && Sorted(p[n..])
  {
    forall i, j | 0 <= i < j < n ensures Less(p[..n][i].field, p[..n][j].field) { assert Less(p[i].field, p[j].field); }
    forall i, j | 0 <= i < j < |p| - n
      ensures Less(p[n..][i].field, p[n..][j].field)
    {
      assert Less(p[n + i].field, p[n + j].field);
    }
  }

  lemma NotBelow(p: seq<Pair>, mid: nat, f: Field)
    requires Sorted(p) && mid < |p| && !Less(p[mid].field, f)
    ensures forall i :: mid <= i < |p| ==> !Less(p[i].field, f)
  {
    forall i | mid <= i < |p|
      ensures !Less(p[i].field, f)
    {
      if mid < i && Less(p[i].field, f) {
        assert Less(p[mid].field, p[i].field);
        LessTransitive(p[mid].field, p[i].field, f);
      }
    }
  }

  lemma SearchFinds(p: seq<Pair>, f: Field, idx: nat)
    requires Sorted(p) && idx <= |p| && Under(p[..idx], f) && forall i :: idx <= i < |p| ==> !Less(p[i].field, f)
    ensures f in ToMap(p) <==> idx < |p| && p[idx].field == f
  {
    hide ToMap, Less;
    ToMapHas(p, f);
    BelowApart(p, f, idx);
    AboveApart(p, f, idx);
    if f in ToMap(p) {
      var i :| 0 <= i < |p| && p[i].field == f;
    }
  }

  lemma BelowApart(p: seq<Pair>, f: Field, idx: nat)
    requires idx <= |p| && Under(p[..idx], f)
    ensures forall i :: 0 <= i < idx ==> p[i].field != f
  {
    hide Less;
    LessTotal(f, f);
    forall i | 0 <= i < idx ensures p[i].field != f { assert p[..idx][i] == p[i]; }
  }

  lemma AboveApart(p: seq<Pair>, f: Field, idx: nat)
    requires Sorted(p) && forall i :: idx <= i < |p| ==> !Less(p[i].field, f)
    ensures forall i :: idx < i < |p| ==> p[i].field != f
  {
    hide Less;
    forall i | idx < i < |p| ensures p[i].field != f { assert Less(p[idx].field, p[i].field); }
  }

  /** The read-modify-write of one field: search, then replace or shift and insert. */
  method PutField(p: seq<Pair>, x: Pair) returns (q: seq<Pair>, added: bool)
    requires Sorted(p)
    ensures q == Upsert(p, x)
    ensures added <==> x.field !in ToMap(p)
  {
    var idx := Search(p, x.field);
    if idx < |p| && p[idx].field == x.field {
      q, added := p[idx := x], false;
    } else {
      q, added := p[..idx] + [x] + p[idx..], true;
    }
    UpsertAt(p, x, idx);
  }

  lemma {:induction false} UpsertAt(p: seq<Pair>, x: Pair, idx: nat)
    requires Sorted(p) && idx <= |p| && Under(p[..idx], x.field)
    requires forall i :: idx <= i < |p| ==> !Less(p[i].field, x.field)
    ensures Upsert(p, x) == if idx < |p| && p[idx].field == x.field then p[idx := x] else p[..idx] + [x] + p[idx..]
  {
    hide Less, Sorted;
    if p != [] {
      var n := |p| - 1;
      AboveApart(p, x.field, idx);
      if idx == |p| {
        LastUnder(p, x.field);
      } else if p[n].field == x.field {
        assert idx == n && p[..n] + [x] == p[n := x];
      } else {
        SortedPrefix(p, n);
        assert p[..n][..idx] == p[..idx];
        UpsertAt(p[..n], x, idx);
        InsertBefore(p, x, idx);
      }
    }
  }

  lemma LastUnder(p: seq<Pair>, f: Field)
    requires p != [] && Under(p[..|p|], f)
    ensures p[..|p|] == p && Less(p[|p| - 1].field, f) && p[|p| - 1].field != f
  {
    hide Less;
    assert p[..|p|] == p;
    LessTotal(f, f);
  }

  /** Replacing or inserting before the last pair is doing so in the rest. */
  lemma InsertBefore(p: seq<Pair>, x: Pair, idx: nat)
    requires idx < |p|
    ensures var n := |p| - 1;
      && p[..idx] + [x] + p[idx..] == (p[..n][..idx] + [x] + p[..n][idx..]) + [p[n]]
      && (idx < n ==> p[idx := x] == p[..n][idx := x] + [p[n]])
  {
  }

  /** Sorting by field; a repeated field keeps its last pair. */
  function SortPairs(p: seq<Pair>): seq<Pair>
  {
    if p == [] then [] else Upsert(SortPairs(p[..|p| - 1]), p[|p| - 1])
  }

  lemma {:induction false} SortPairsKeeps(p: seq<Pair>)
    ensures Sorted(SortPairs(p)) && ToMap(SortPairs(p)) == ToMap(p)
  {
    if p != [] {
      SortPairsKeeps(p[..|p| - 1]);
      UpsertKeeps(SortPairs(p[..|p| - 1]), p[|p| - 1]);
    }
  }

  // ---- dropping pairs ----

  /** The pairs that pass a test, in order. */
  function Select(p: seq<Pair>, keep: Pair -> bool): seq<Pair>
  {
    if p == [] then []
    else Select(p[..|p| - 1], keep) + if keep(p[|p| - 1]) then [p[|p| - 1]] else []
  }

  function SelectMap(m: map<Field, Entry>, keep: Pair -> bool): map<Field, Entry>
  {
    map f | f in m && keep(Pair(f, m[f].value, m[f].expiresAt)) :: m[f]
  }

  lemma {:induction false} SelectSubset(p: seq<Pair>, keep: Pair -> bool, f: Field)
    ensures |Select(p, keep)| <= |p|
    ensures Under(p, f) ==> Under(Select(p, keep), f)
  {
    if p != [] {
      SelectSubset(p[..|p| - 1], keep, f);
      assert Under(p, f) ==> Under(p[..|p| - 1], f);
    }
  }

  lemma {:induction false} SelectSorted(p: seq<Pair>, keep: Pair -> bool)
    requires Sorted(p)
    ensures Sorted(Select(p, keep))
  {
    if p != [] {
      var n := |p| - 1;
      assert p == p[..n] + [p[n]];
      SortedSnoc(p[..n], p[n]);
      SelectSorted(p[..n], keep);
      SelectSubset(p[..n], keep, p[n].field);
      SortedSnoc(Select(p[..n], keep), p[n]);
      assert Select(p[..n], keep) + [] == Select(p[..n], keep);
    }
  }

  /** Selecting pairs is selecting entries of the map. */
  lemma {:induction false} SelectMaps(p: seq<Pair>, keep: Pair -> bool)
    requires Distinct(p)
    ensures Distinct(Select(p, keep)) && ToMap(Select(p, keep)) == SelectMap(ToMap(p), keep)
  {
    if p != [] {
      var n := |p| - 1;
      var last, q := p[n], Select(p[..n], keep);
      SelectMaps(p[..n], keep);
      LastIsNew(p);
      assert last.field !in ToMap(q);
      if keep(last) {
        DistinctSnoc(q, last);
        assert (q + [last])[..|q|] == q;
      } else {
        assert q + [] == q;
      }
    }
  }

  lemma DistinctSnoc(p: seq<Pair>, x: Pair)
    requires Distinct(p) && x.field !in ToMap(p)
    ensures Distinct(p + [x])
  {
    ToMapHas(p, x.field);
  }

  /** A list without repeated fields has as many pairs as its map has keys. */
  lemma {:induction false} ToMapSize(p: seq<Pair>)
    requires Distinct(p)
    ensures |ToMap(p)| == |p|
  {
    if p != [] {
      ToMapSize(p[..|p| - 1]);
      LastIsNew(p);
    }
  }

  /** Not yet expired at `now`; zero means no deadline. */
  predicate Alive(p: Pair, now: int)
  {
    !(p.expiresAt != 0 && p.expiresAt <= now)
  }

  function LiveMap(m: map<Field, Entry>, now: int): map<Field, Entry>
  {
    SelectMap(m, p => Alive(p, now))
  }

  /** The pairs that are not expired at `now`. */
  method LiveHashPairs(p: seq<Pair>, now: int) returns (q: seq<Pair>)
    requires Sorted(p)
    ensures Sorted(q) && ToMap(q) == LiveMap(ToMap(p), now)
  {
    ghost var keep := (x: Pair) => Alive(x, now);
    q := [];
    for i := 0 to |p|
      invariant q == Select(p[..i], keep)
    {
      assert p[..i + 1][..i] == p[..i];
      if !(p[i].expiresAt != 0 && p[i].expiresAt <= now) {
        q := q + [p[i]];
      }
    }
    assert p[..|p|] == p;
    SortedDistinct(p);
    SelectSorted(p, keep);
    SelectMaps(p, keep);
  }

  lemma MinusNothing(m: map<Field, Entry>, remove: set<Field>)
    ensures m - remove == m <==> m.Keys !! remove
  {
    if m - remove == m { assert m.Keys - remove == m.Keys; }
  }

  /** The pairs whose field is not to be removed, and how many were. */
  method KeepOthers(p: seq<Pair>, remove: set<Field>) returns (q: seq<Pair>, deleted: nat)
    requires Sorted(p)
    ensures Sorted(q) && ToMap(q) == ToMap(p) - remove
    ensures deleted == |ToMap(p)| - |ToMap(q)|
    ensures deleted == 0 <==> ToMap(p).Keys !! remove
  {
    ghost var keep := (x: Pair) => x.field !in remove;
    q, deleted := [], 0;
    for i := 0 to |p|
      invariant q == Select(p[..i], keep) && |q| + deleted == i
    {
      assert p[..i + 1][..i] == p[..i];
      if p[i].field in remove {
        deleted := deleted + 1;
      } else {
        q := q + [p[i]];
      }
    }
    assert p[..|p|] == p;
    SortedDistinct(p);
    SelectSorted(p, keep);
    SelectMaps(p, keep);
    assert SelectMap(ToMap(p), keep) == ToMap(p) - remove;
    ToMapSize(p);
    ToMapSize(q);
    MinusSize(ToMap(p), remove);
  }

  lemma {:induction false} SubsetSize<K>(a: set<K>, b: set<K>)
    requires a <= b
    ensures |b - a| == |b| - |a|
  {
    if a != {} {
      var k :| k in a;
      SubsetSize(a - {k}, b - {k});
      assert b - a == (b - {k}) - (a - {k});
      assert |a - {k}| == |a| - 1 && |b - {k}| == |b| - 1;
    } else {
      assert b - a == b;
    }
  }

  lemma MinusSize<K, V>(m: map<K, V>, s: set<K>)
    ensures |m - s| <= |m| && (|m - s| == |m| <==> m.Keys !! s)
  {
    var common := m.Keys * s;
    assert (m - s).Keys == m.Keys - s == m.Keys - common;
    SubsetSize(common, m.Keys);
    assert |m| == |m.Keys| && |m - s| == |(m - s).Keys|;
    assert common == {} <==> m.Keys !! s;
  }

  // ---- what HSET means ----

  /** Setting fields in order: later writes of a field win, and a write clears its deadline. */
  function SetAll(m: map<Field, Entry>, fields: seq<Field>, values: seq<seq<byte>>): map<Field, Entry>
    requires |fields| == |values|
  {
    if fields == [] then m
    else
      var n := |fields| - 1;
      SetAll(m, fields[..n], values[..n])[fields[n] := Entry(values[n], 0)]
  }

  lemma SetAllNext(m: map<Field, Entry>, fields: seq<Field>, values: seq<seq<byte>>, i: nat)
    requires |fields| == |values| && i < |fields|
    ensures SetAll(m, fields[..i + 1], values[..i + 1]) ==
      SetAll(m, fields[..i], values[..i])[fields[i] := Entry(values[i], 0)]
  {
    assert fields[..i + 1][..i] == fields[..i] && values[..i + 1][..i] == values[..i];
  }

  lemma SetAllWhole(m: map<Field, Entry>, fields: seq<Field>, values: seq<seq<byte>>)
    requires |fields| == |values|
    ensures SetAll(m, fields[..|fields|], values[..|fields|]) == SetAll(m, fields, values)
    ensures SetAll(m, fields[..0], values[..0]) == m
  {
    assert fields[..|fields|] == fields && values[..|fields|] == values;
  }

  /** An updated map has one more field exactly when the field is new. */
  lemma UpdateSize<K, V>(m: map<K, V>, k: K, v: V)
    ensures |m[k := v]| == |m| + if k in m then 0 else 1
  {
    assert m[k := v].Keys == m.Keys + {k};
    assert |m| == |m.Keys| && |m[k := v]| == |m[k := v].Keys|;
  }

  lemma {:induction false} SetAllSplit(m: map<Field, Entry>, fields: seq<Field>, values: seq<seq<byte>>, i: nat)
    requires |fields| == |values| && i <= |fields|
    ensures SetAll(SetAll(m, fields[..i], values[..i]), fields[i..], values[i..]) == SetAll(m, fields, values)
    decreases |fields|
  {
    var n := |fields| - 1;
    if i == |fields| {
      assert fields[..i] == fields && values[..i] == values;
    } else {
      SetAllSplit(m, fields[..n], values[..n], i);
      assert fields[..n][..i] == fields[..i] && values[..n][..i] == values[..i];
      assert fields[i..][..n - i] == fields[..n][i..] && values[i..][..n - i] == values[..n][i..];
    }
  }

  /** No later write names the field that write `i` names. */
  predicate LastWrite(fields: seq<Field>, i: nat)
    requires i < |fields|
  {
    forall j :: i < j < |fields| ==> fields[j] != fields[i]
  }

  /** A field no write names keeps what it had. */
  lemma {:induction false} SetAllOther(m: map<Field, Entry>, fields: seq<Field>, values: seq<seq<byte>>, f: Field)
    requires |fields| == |values| && f !in fields
    ensures f in SetAll(m, fields, values) <==> f in m
    ensures f in m ==> SetAll(m, fields, values)[f] == m[f]
  {
    if fields != [] {
      var n := |fields| - 1;
      assert fields[n] != f;
      SetAllOther(m, fields[..n], values[..n], f);
    }
  }

  /** A field has the value of the last write that names it. */
  lemma {:induction false} SetAllLast(m: map<Field, Entry>, fields: seq<Field>, values: seq<seq<byte>>, i: nat)
    requires i < |fields| == |values| && LastWrite(fields, i)
    ensures fields[i] in SetAll(m, fields, values) && SetAll(m, fields, values)[fields[i]] == Entry(values[i], 0)
    decreases |fields|
  {
    var n := |fields| - 1;
    if i < n {
      assert fields[n] != fields[i];
      SetAllLast(m, fields[..n], values[..n], i);
    }
  }

  lemma {:induction false} LastOf(fields: seq<Field>, f: Field) returns (i: nat)
    requires f in fields
    ensures i < |fields| && fields[i] == f && LastWrite(fields, i)
  {
    var n := |fields| - 1;
    if fields[n] == f { return n; }
    assert fields == fields[..n] + [fields[n]];
    i := LastOf(fields[..n], f);
    assert forall j :: i < j < n ==> fields[j] == fields[..n][j];
  }

  /** Every field that is written already has the value it would end up with. */
  predicate Rewrites(m: map<Field, Entry>, fields: seq<Field>, values: seq<seq<byte>>)
    requires |fields| == |values|
  {
    forall i :: 0 <= i < |fields| && LastWrite(fields, i) ==> fields[i] in m && m[fields[i]] == Entry(values[i], 0)
  }

  lemma RewritesNothing(m: map<Field, Entry>, fields: seq<Field>, values: seq<seq<byte>>)
    requires |fields| == |values|
    ensures SetAll(m, fields, values) == m <==> Rewrites(m, fields, values)
  {
    var r := SetAll(m, fields, values);
    if r == m {
      forall i | 0 <= i < |fields| && LastWrite(fields, i)
        ensures fields[i] in m && m[fields[i]] == Entry(values[i], 0)
      {
        SetAllLast(m, fields, values, i);
      }
    }
    if Rewrites(m, fields, values) {
      forall f: Field
        ensures (f in r <==> f in m) && (f in m ==> r[f] == m[f])
      {
        if f in fields {
          var i := LastOf(fields, f);
          SetAllLast(m, fields, values, i);
        } else {
          SetAllOther(m, fields, values, f);
        }
      }
      SameMap(r, m);
    }
  }

  lemma SameMap<K, V>(a: map<K, V>, b: map<K, V>)
    requires forall k :: (k in a <==> k in b) && (k in b ==> a[k] == b[k])
    ensures a == b
  {
  }

  lemma {:induction false} SetAllNoExpiry(m: map<Field, Entry>, fields: seq<Field>, values: seq<seq<byte>>)
    requires |fields| == |values| && forall f :: f in m ==> m[f].expiresAt == 0
    ensures forall f :: f in SetAll(m, fields, values) ==> SetAll(m, fields, values)[f].expiresAt == 0
  {
    if fields != [] {
      var n := |fields| - 1;
      SetAllNoExpiry(m, fields[..n], values[..n]);
    }
  }
}
