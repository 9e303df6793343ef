/** The indexed hash layout (SH4): an open-addressed slot table in front of an append-only list of
    records, edited in place by HSET. */
module IndexedHash {
  import opened Words
  import opened FieldOrder
  import opened PackedHash
  import opened Bits
  import opened IndexedRecords
  import Probing

  const FIXED := 15
  const TAG: seq<byte> := ['S' as int, 'H' as int, 4]

  // ---- the layout of a buffer ----

  function Slots(d: seq<byte>): nat
    requires |d| >= FIXED
  {
    Word(d, 7, 4)
  }

  function Used(d: seq<byte>): nat
    requires |d| >= FIXED
  {
    Word(d, 11, 4)
  }

  function Start(d: seq<byte>): nat
    requires |d| >= FIXED
  {
    FIXED + 4 * Slots(d)
  }

  /** The header checks. */
  predicate Meta(d: seq<byte>)
  {
    |d| >= FIXED && d[..3] == TAG && Slots(d) >= 8 && And(Slots(d), Slots(d) - 1) == 0 && Start(d) + Used(d) <= |d|
  }

  /** The parts of a buffer: the stored count, the slot words, the records and the free bytes. */
  datatype Layout = Layout(count: nat, slots: seq<nat>, body: seq<byte>, free: nat)

  function SlotAt(d: seq<byte>, s: nat): nat
    requires FIXED + 4 * s + 4 <= |d|
  {
    Word(d, FIXED + 4 * s, 4)
  }

  function LayoutOf(d: seq<byte>): Layout
    requires Meta(d)
  {
    var start, used := Start(d), Used(d);
    Layout(Word(d, 3, 4), seq(Slots(d), s requires 0 <= s < Slots(d) => SlotAt(d, s)),
           d[start..start + used], |d| - start - used)
  }

  lemma PatchWord(d: seq<byte>, off: nat, n: nat, at: nat)
    requires off + 4 <= |d| && at + 4 <= |d| && n < TWO32 && (at == off || at + 4 <= off || off + 4 <= at)
    ensures Word(Patch(d, off, Le(n, 4)), at, 4) == if at == off then n else Word(d, at, 4)
  {
    WordLimits();
    if at == off { WordPatched(d, off, 4, n); }
    else { PatchFrame(d, off, Le(n, 4), at, at + 4); }
  }

  /** Writing a word in the header or the slot table leaves the tag and the size alone. */
  lemma PatchMeta(d: seq<byte>, off: nat, n: nat)
    requires Meta(d) && n < TWO32 && (off == 3 || exists s :: 0 <= s < Slots(d) && off == FIXED + 4 * s)
    ensures var e := Patch(d, off, Le(n, 4));
      off + 4 <= Start(d) && Meta(e) && Slots(e) == Slots(d) && Used(e) == Used(d)
  {
    hide And, Word, Le, Patch;
    PatchWord(d, off, n, 7);
    PatchWord(d, off, n, 11);
    PatchFrame(d, off, Le(n, 4), 0, 3);
  }

  lemma PatchSlot(d: seq<byte>, s: nat, v: nat)
    requires Meta(d) && s < Slots(d) && v < TWO32
    ensures var e := Patch(d, FIXED + 4 * s, Le(v, 4));
      Meta(e) && LayoutOf(e) == LayoutOf(d).(slots := LayoutOf(d).slots[s := v]) && Slots(e) == Slots(d)
  {
    hide And, Word, Le, Patch;
    var off := FIXED + 4 * s;
    var e := Patch(d, off, Le(v, 4));
    PatchMeta(d, off, v);
    PatchWord(d, off, v, 3);
    forall t | 0 <= t < Slots(d)
      ensures SlotAt(e, t) == if t == s then v else SlotAt(d, t)
    {
      PatchWord(d, off, v, FIXED + 4 * t);
    }
    assert LayoutOf(e).slots == LayoutOf(d).slots[s := v];
    PatchFrame(d, off, Le(v, 4), Start(d), Start(d) + Used(d));
  }

  lemma PatchCount(d: seq<byte>, n: nat)
    requires Meta(d) && n < TWO32
    ensures var e := Patch(d, 3, Le(n, 4));
      Meta(e) && LayoutOf(e) == LayoutOf(d).(count := n)
  {
    hide And, Word, Le, Patch;
    var e := Patch(d, 3, Le(n, 4));
    PatchMeta(d, 3, n);
    PatchWord(d, 3, n, 3);
    forall t | 0 <= t < Slots(d)
      ensures SlotAt(e, t) == SlotAt(d, t)
    {
      PatchWord(d, 3, n, FIXED + 4 * t);
    }
    assert LayoutOf(e).slots == LayoutOf(d).slots;
    PatchFrame(d, 3, Le(n, 4), Start(d), Start(d) + Used(d));
  }

  lemma Adjoin(d: seq<byte>, a: nat, b: nat, c: nat)
    requires a <= b <= c <= |d|
    ensures d[a..c] == d[a..b] + d[b..c]
  {
  }

  /** Growing the used size takes in the bytes that follow the records. */
  lemma PatchUsed(d: seq<byte>, u: nat)
    requires Meta(d) && Start(d) + u <= |d| && u < TWO32
    ensures var e := Patch(d, 11, Le(u, 4));
      Meta(e) && LayoutOf(e) == LayoutOf(d).(body := d[Start(d)..Start(d) + u], free := |d| - Start(d) - u)
  {
    hide And, Word, Le, Patch;
    var e := Patch(d, 11, Le(u, 4));
    PatchWord(d, 11, u, 3);
    PatchWord(d, 11, u, 7);
    PatchWord(d, 11, u, 11);
    PatchFrame(d, 11, Le(u, 4), 0, 3);
    forall t | 0 <= t < Slots(d)
      ensures SlotAt(e, t) == SlotAt(d, t)
    {
      PatchWord(d, 11, u, FIXED + 4 * t);
    }
    assert LayoutOf(e).slots == LayoutOf(d).slots;
    PatchFrame(d, 11, Le(u, 4), Start(d), Start(d) + u);
  }

  /** Copying bytes behind the records changes nothing yet. */
  lemma PatchFree(d: seq<byte>, rec: seq<byte>)
    requires Meta(d) && Start(d) + Used(d) + |rec| <= |d|
    ensures var e := Patch(d, Start(d) + Used(d), rec);
      Meta(e) && LayoutOf(e) == LayoutOf(d) && Slots(e) == Slots(d) && Used(e) == Used(d)
  {
    hide And, Patch;
    var off := Start(d) + Used(d);
    var e := Patch(d, off, rec);
    PatchFrame(d, off, rec, 0, 3);
    PatchFrame(d, off, rec, 3, 7);
    PatchFrame(d, off, rec, 7, 11);
    PatchFrame(d, off, rec, 11, 15);
    forall t | 0 <= t < Slots(d)
      ensures SlotAt(e, t) == SlotAt(d, t)
    {
      PatchFrame(d, off, rec, FIXED + 4 * t, FIXED + 4 * t + 4);
    }
    assert LayoutOf(e).slots == LayoutOf(d).slots;
    PatchFrame(d, off, rec, Start(d), off);
  }

  // ---- what a buffer holds ----

  ghost predicate Indexed(l: Layout, hash: Field -> nat)
  {
    Table(l.slots, Recs(l.body), hash) && Probing.Occupied(l.slots) < |l.slots|
  }

  /** The invariant of every buffer the engine keeps: the table finds each record, the stored count is
      exact, and the table is less than seven tenths full. */
  ghost predicate Valid(d: seq<byte>, hash: Field -> nat)
  {
    && |d| <= MAX_BYTES && Meta(d)
    && var l := LayoutOf(d);
       Table(l.slots, Recs(l.body), hash) && l.count == Probing.Occupied(l.slots) && 10 * l.count < 7 * |l.slots|
  }

  ghost function Contents(d: seq<byte>): map<Field, Entry>
    requires Meta(d)
  {
    View(LayoutOf(d).slots, Recs(LayoutOf(d).body))
  }

  // ---- reading ----

  datatype Hit = Bad | Free(slot: nat) | Found(slot: nat, pair: Pair)

  /** The record that a slot word names. */
  method ReadRecord(d: seq<byte>, v: nat) returns (r: Option<Pair>)
    requires Meta(d) && v > 0
    ensures r == Named(LayoutOf(d).body, v)
  {
    hide GetPair, And;
    var start, used := Start(d), Used(d);
    if v - 1 >= used { return None; }
    var whole := d[..start + used];
    assert whole[start + (v - 1)..] == LayoutOf(d).body[v - 1..];
    var pair, next := ReadPair(whole, start + (v - 1), false);
    return pair;
  }

  /** Probes for a field.  On a sound table the probe ends, at the field or at the free slot it would
      go to. */
  method Find(d: seq<byte>, field: Field, hash: Field -> nat) returns (hit: Hit)
    requires Meta(d)
    ensures !hit.Bad? ==> hit.slot < Slots(d) && (hit.Free? <==> LayoutOf(d).slots[hit.slot] == 0)
    ensures Indexed(LayoutOf(d), hash) ==> !hit.Bad?
    ensures Indexed(LayoutOf(d), hash) ==> Ends(LayoutOf(d).slots, Recs(LayoutOf(d).body), hash, field, hit.slot)
    ensures hit.Found? ==>
      hit.pair.field == field && Named(LayoutOf(d).body, LayoutOf(d).slots[hit.slot]) == Some(hit.pair)
  {
    hide Named, And, Word, Probing.Table;
    var n := Slots(d);
    assert PowerOfTwo(n) by { AndPredecessor(n); }
    var start := And(hash(field), n - 1);
    MaskIsMod(hash(field), n);
    ghost var l := LayoutOf(d);
    ghost var key := Keys(Recs(l.body));
    ghost var good := Indexed(l, hash);
    if good {
      Probing.ProbeDecides(l.slots, key, hash, field, 0);
      Probing.RoomLeft(l.slots);
    }
    for probe := 0 to n
      invariant Probing.Probe(l.slots, key, start, field, 0) == Probing.Probe(l.slots, key, start, field, probe)
    {
      var slot := Probing.At(start, probe, n);
      var raw := SlotAt(d, slot);
      assert raw == l.slots[slot];
      if raw == 0 { return Free(slot); }
      if good { TableSlot(l.slots, Recs(l.body), hash, slot); }
      var pair := ReadRecord(d, raw);
      RecsNamed(l.body, raw);
      if pair.None? { return Bad; }
      if pair.value.field == field { return Found(slot, pair.value); }
    }
    return Bad;
  }

  lemma RecsNamed(body: seq<byte>, v: nat)
    ensures v in Recs(body) <==> Named(body, v).Some?
    ensures v in Recs(body) ==> Recs(body)[v] == Named(body, v).value && Recs(body)[v].expiresAt == 0
    ensures v in Recs(body) ==> v in Keys(Recs(body)) && Keys(Recs(body))[v] == Recs(body)[v].field
  {
  }

  /** The value of a field. */
  method Lookup(d: seq<byte>, target: Field, hash: Field -> nat) returns (r: Option<Option<seq<byte>>>)
    ensures !Meta(d) ==> r == None
    ensures Valid(d, hash) ==>
      r == Some(if target in Contents(d) then Some(Contents(d)[target].value) else None)
  {
    hide Named, And, Word, Probing.Table, View, Recs;
    var meta := CheckMeta(d);
    if !meta { return None; }
    var hit := Find(d, target, hash);
    if hit.Bad? { return None; }
    if Valid(d, hash) {
      FindMeans(LayoutOf(d), target, hash, hit);
    }
    if hit.Free? { return Some(None); }
    return Some(Some(hit.pair.value));
  }

  method CheckMeta(d: seq<byte>) returns (ok: bool)
    ensures ok <==> Meta(d)
  {
    hide And;
    if |d| < FIXED || d[..3] != TAG { return false; }
    var slots, used := Slots(d), Used(d);
    if slots < 8 || And(slots, slots - 1) != 0 { return false; }
    return FIXED + 4 * slots <= |d| && FIXED + 4 * slots + used <= |d|;
  }

  /** What a finished probe says about the map. */
  lemma FindMeans(l: Layout, field: Field, hash: Field -> nat, hit: Hit)
    requires Table(l.slots, Recs(l.body), hash) && !hit.Bad?
    requires Ends(l.slots, Recs(l.body), hash, field, hit.slot) && (hit.Free? <==> l.slots[hit.slot] == 0)
    requires hit.Found? ==> Named(l.body, l.slots[hit.slot]) == Some(hit.pair)
    ensures hit.Found? <==> field in View(l.slots, Recs(l.body))
    ensures hit.Found? ==> View(l.slots, Recs(l.body))[field] == Entry(hit.pair.value, 0)
  {
    hide Named, Probing.Table, View, Recs;
    EndsView(l.slots, Recs(l.body), hash, field, hit.slot);
    if hit.Found? {
      RecsNamed(l.body, l.slots[hit.slot]);
      ViewAt(l.slots, Recs(l.body), hash, hit.slot);
    }
  }

  /** The pairs of the first slots, or nothing when a record does not parse. */
  method Collect(d: seq<byte>, ghost hash: Field -> nat) returns (r: Option<seq<Pair>>)
    requires Meta(d)
    ensures Indexed(LayoutOf(d), hash) ==> r == Some(PairsIn(LayoutOf(d).slots, Recs(LayoutOf(d).body), Slots(d)))
  {
    hide Named, And, Word, Probing.Table, Recs;
    ghost var l := LayoutOf(d);
    ghost var good := Indexed(l, hash);
    var pairs: seq<Pair> := [];
    for slot := 0 to Slots(d)
      invariant good ==> pairs == PairsIn(l.slots, Recs(l.body), slot)
    {
      var raw := SlotAt(d, slot);
      assert raw == l.slots[slot];
      if raw == 0 { continue; }
      if good { TableSlot(l.slots, Recs(l.body), hash, slot); }
      var pair := ReadRecord(d, raw);
      RecsNamed(l.body, raw);
      if pair.None? { return None; }
      pairs := pairs + [pair.value];
    }
    return Some(pairs);
  }

  /** Decodes a buffer to its pairs, sorted. */
  method Decode(d: seq<byte>, ghost hash: Field -> nat) returns (r: Option<seq<Pair>>)
    ensures r.Some? ==> Meta(d) && Sorted(r.value)
    ensures Valid(d, hash) ==> r.Some? && ToMap(r.value) == Contents(d) && |r.value| == LayoutOf(d).count
    ensures Valid(d, hash) ==> NoExpiry(r.value)
  {
    hide Named, And, Word, Probing.Table, Recs, View;
    var meta := CheckMeta(d);
    if !meta { return None; }
    var pairs := Collect(d, hash);
    if pairs.None? || |pairs.value| != Word(d, 3, 4) {
      if Valid(d, hash) { CollectMeans(LayoutOf(d), hash); }
      return None;
    }
    SortPairsKeeps(pairs.value);
    if Valid(d, hash) {
      CollectMeans(LayoutOf(d), hash);
      SortedSize(SortPairs(pairs.value), pairs.value);
      MapNoExpiry(SortPairs(pairs.value));
    }
    return Some(SortPairs(pairs.value));
  }

  predicate NoExpiry(p: seq<Pair>)
  {
    forall i :: 0 <= i < |p| ==> p[i].expiresAt == 0
  }

  lemma SortedSize(p: seq<Pair>, q: seq<Pair>)
    requires Sorted(p) && Distinct(q) && ToMap(p) == ToMap(q)
    ensures |p| == |q|
  {
    SortedDistinct(p);
    ToMapSize(p);
    ToMapSize(q);
  }

  lemma MapNoExpiry(p: seq<Pair>)
    requires Sorted(p) && forall f :: f in ToMap(p) ==> ToMap(p)[f].expiresAt == 0
    ensures NoExpiry(p)
  {
    SortedDistinct(p);
    forall i | 0 <= i < |p| ensures p[i].expiresAt == 0 { ToMapAt(p, i); }
  }

  lemma CollectMeans(l: Layout, hash: Field -> nat)
    requires Table(l.slots, Recs(l.body), hash)
    ensures var p := PairsIn(l.slots, Recs(l.body), |l.slots|);
      && Distinct(p) && ToMap(p) == View(l.slots, Recs(l.body)) && |p| == Probing.Occupied(l.slots)
      && forall f :: f in ToMap(p) ==> ToMap(p)[f].expiresAt == 0
  {
    hide Probing.Table, Recs, View;
    var recs := Recs(l.body);
    PairsInMap(l.slots, recs, hash, |l.slots|);
    assert l.slots[..|l.slots|] == l.slots;
    PairsInView(l.slots, recs, hash);
    forall f | f in View(l.slots, recs)
      ensures View(l.slots, recs)[f].expiresAt == 0
    {
      var s := ViewSlot(l.slots, recs, f);
      RecsNamed(l.body, l.slots[s]);
    }
  }

  // ---- writing ----

  method CopyInto(data: array<byte>, off: nat, src: seq<byte>)
    requires off + |src| <= data.Length
    modifies data
    ensures data[..] == Patch(old(data[..]), off, src)
  {
    forall i | 0 <= i < |src| { data[off + i] := src[i]; }
  }

  /** The buffer after the three writes of an append. */
  ghost function Append(d: seq<byte>, slot: nat, rec: seq<byte>): seq<byte>
    requires |d| >= FIXED && slot < Slots(d) && Start(d) <= |d| && Start(d) + Used(d) + |rec| <= |d|
  {
    Patch(Patch(Patch(d, Start(d) + Used(d), rec), FIXED + 4 * slot, Le(Used(d) + 1, 4)), 11, Le(Used(d) + |rec|, 4))
  }

  lemma AppendMeans(d: seq<byte>, slot: nat, rec: seq<byte>)
    requires Meta(d) && slot < Slots(d) && Start(d) + Used(d) + |rec| <= |d| < TWO32
    ensures Meta(Append(d, slot, rec))
    ensures var l := LayoutOf(d);
      LayoutOf(Append(d, slot, rec)) == Layout(l.count, l.slots[slot := |l.body| + 1], l.body + rec, l.free - |rec|)
  {
    hide And, Word, Patch, Le;
    var start, used := Start(d), Used(d);
    var at, end := start + used, start + used + |rec|;
    var d1 := Patch(d, at, rec);
    PatchFree(d, rec);
    PatchReads(d, at, rec);
    var word := Le(used + 1, 4);
    var d2 := Patch(d1, FIXED + 4 * slot, word);
    PatchSlot(d1, slot, used + 1);
    PatchFrame(d1, FIXED + 4 * slot, word, at, end);
    PatchUsed(d2, used + |rec|);
    Adjoin(d2, start, at, end);
  }

  /** Appends a record behind the others and points a slot at it. */
  method AppendRecord(data: array<byte>, slot: nat, rec: seq<byte>)
    requires Meta(data[..]) && slot < Slots(data[..])
    requires Start(data[..]) + Used(data[..]) + |rec| <= data.Length < TWO32
    modifies data
    ensures data[..] == Append(old(data[..]), slot, rec)
  {
    hide And, Word, Patch, Le;
    var start, used := Start(data[..]), Used(data[..]);
    CopyInto(data, start + used, rec);
    CopyInto(data, FIXED + 4 * slot, Le(used + 1, 4));
    CopyInto(data, 11, Le(used + |rec|, 4));
  }

  /** Setting a field on a sound table: what the append makes of the map. */
  lemma AppendSets(l: Layout, hash: Field -> nat, slot: nat, f: Field, v: seq<byte>)
    requires Table(l.slots, Recs(l.body), hash) && Ends(l.slots, Recs(l.body), hash, f, slot)
    requires |f| < TWO64 && |v| < TWO64
    ensures var slots, recs := l.slots[slot := |l.body| + 1], Recs(l.body + Record(f, v));
      && Table(slots, recs, hash)
      && View(slots, recs) == View(l.slots, Recs(l.body))[f := Entry(v, 0)]
      && Probing.Occupied(slots) == Probing.Occupied(l.slots) + if f in View(l.slots, Recs(l.body)) then 0 else 1
  {
    hide Probing.Table, View, Recs, Record;
    Appended(l.body, f, v);
    assert |l.body| + 1 !in Recs(l.body) by { PastEnd(l.body); }
    PutKeeps(l.slots, Recs(l.body), Recs(l.body + Record(f, v)), hash, slot, Pair(f, v, 0), |l.body| + 1);
  }

  lemma PastEnd(body: seq<byte>)
    ensures |body| + 1 !in Recs(body)
  {
  }

  // ---- encoding ----

  /** `p` doubled until it is at least `n`. */
  function Doubled(p: nat, n: nat): (r: nat)
    requires p > 0
    ensures r >= n && r >= p
    decreases n - p
  {
    if p >= n then p else Doubled(2 * p, n)
  }

  lemma {:induction false} DoubledPower(p: nat, n: nat)
    requires PowerOfTwo(p)
    ensures PowerOfTwo(Doubled(p, n)) && (Doubled(p, n) == p || Doubled(p, n) < 2 * n)
    decreases n - p
  {
    if p < n {
      PowerOfTwoDoubles(p);
      DoubledPower(2 * p, n);
    }
  }

  /** The slot count for `n` fields: the least power of two from 8 that is at least `n`. */
  method NextPow2(n: nat) returns (p: nat)
    ensures p == Doubled(8, n)
  {
    p := 8;
    while p < n
      invariant p > 0 && Doubled(p, n) == Doubled(8, n)
      decreases n - p
    {
      p := 2 * p;
    }
  }

  function BodySize(p: seq<Pair>): nat
  {
    if p == [] then 0 else BodySize(p[..|p| - 1]) + |Record(p[|p| - 1].field, p[|p| - 1].value)|
  }

  /** Record bytes with headroom: a quarter, or 512 bytes when that is more. */
  function Reserve(used: nat): nat
  {
    if used / 4 < 512 then used + 512 else used + used / 4
  }

  function TotalSize(p: seq<Pair>): nat
  {
    FIXED + 4 * Doubled(8, 2 * |p|) + Reserve(BodySize(p))
  }

  ghost predicate Encodes(p: seq<Pair>)
  {
    p != [] && NoExpiry(p) && TotalSize(p) <= MAX_BYTES && Distinct(p)
  }

  method MeasureRecords(p: seq<Pair>) returns (used: nat, ok: bool)
    ensures ok <==> NoExpiry(p)
    ensures ok ==> used == BodySize(p)
  {
    used, ok := 0, false;
    for i := 0 to |p|
      invariant used == BodySize(p[..i]) && NoExpiry(p[..i])
    {
      if p[i].expiresAt != 0 { return; }
      assert p[..i + 1][..i] == p[..i];
      used := used + |Record(p[i].field, p[i].value)|;
    }
    assert p[..|p|] == p;
    ok := true;
  }

  lemma {:induction false} BodySizeAt(p: seq<Pair>, i: nat)
    requires i < |p|
    ensures BodySize(p[..i]) + |Record(p[i].field, p[i].value)| <= BodySize(p)
  {
    hide Record;
    var n := |p| - 1;
    if i < n {
      assert p[..n][..i] == p[..i];
      BodySizeAt(p[..n], i);
    }
  }

  /** An all-zero buffer with its header written holds nothing. */
  lemma EmptyBuffer(d: seq<byte>, n: nat, hash: Field -> nat)
    requires |d| >= FIXED && d[..3] == TAG && Word(d, 7, 4) == n && Word(d, 11, 4) == 0
    requires n >= 8 && PowerOfTwo(n) && FIXED + 4 * n <= |d|
    requires forall i :: FIXED <= i < |d| ==> d[i] == 0
    ensures Meta(d) && |LayoutOf(d).slots| == n && LayoutOf(d).body == []
    ensures var l := LayoutOf(d);
      Table(l.slots, Recs(l.body), hash) && View(l.slots, Recs(l.body)) == map[] && Probing.Occupied(l.slots) == 0
  {
    AndPredecessor(n);
    hide And;
    forall s | 0 <= s < n
      ensures SlotAt(d, s) == 0
    {
      ZeroWord(d, FIXED + 4 * s);
    }
    var l := LayoutOf(d);
    assert Recs([]) == map[] && Keys(map[]) == map[];
    Probing.EmptyTable(l.slots, hash);
  }

  lemma ZeroWord(d: seq<byte>, off: nat)
    requires off + 4 <= |d| && forall i :: off <= i < off + 4 ==> d[i] == 0
    ensures Word(d, off, 4) == 0
  {
    var w := d[off..off + 4];
    assert w == [0, 0, 0, 0];
    assert FromLe([0, 0, 0, 0]) == 0 by {
      assert [0, 0, 0, 0][1..] == [0, 0, 0] && [0, 0, 0][1..] == [0, 0] && [0, 0][1..] == [0] && [0][1..] == [];
    }
  }

  method NewBuffer(total: nat, count: nat, slots: nat, ghost hash: Field -> nat) returns (out: array<byte>)
    requires FIXED + 4 * slots <= total && count < TWO32 && slots < TWO32 && slots >= 8 && PowerOfTwo(slots)
    ensures fresh(out) && out.Length == total && Meta(out[..])
    ensures var l := LayoutOf(out[..]);
      && l.count == count && |l.slots| == slots && l.body == []
      && Table(l.slots, Recs(l.body), hash) && View(l.slots, Recs(l.body)) == map[] && Probing.Occupied(l.slots) == 0
  {
    hide Probing.Table, View, Recs;
    out := new byte[total](_ => 0);
    ghost var d0 := out[..];
    CopyInto(out, 0, TAG);
    ghost var d1 := out[..];
    CopyInto(out, 3, Le(count, 4));
    ghost var d2 := out[..];
    CopyInto(out, 7, Le(slots, 4));
    NewHeader(d0, count, slots);
    EmptyBuffer(out[..], slots, hash);
  }

  lemma NewHeader(d: seq<byte>, count: nat, slots: nat)
    requires |d| >= FIXED && (forall i :: 0 <= i < |d| ==> d[i] == 0) && count < TWO32 && slots < TWO32
    ensures var e := Patch(Patch(Patch(d, 0, TAG), 3, Le(count, 4)), 7, Le(slots, 4));
      && |e| == |d| && e[..3] == TAG && Word(e, 3, 4) == count && Word(e, 7, 4) == slots && Word(e, 11, 4) == 0
      && forall i :: FIXED <= i < |e| ==> e[i] == 0
  {
    hide Word, Le, Patch;
    var d1 := Patch(d, 0, TAG);
    var d2 := Patch(d1, 3, Le(count, 4));
    var e := Patch(d2, 7, Le(slots, 4));
    PatchWord(d1, 3, count, 3);
    PatchWord(d2, 7, slots, 3);
    PatchWord(d2, 7, slots, 7);
    ZeroWord(e, 11);
  }

  /** The buffer while the first `i` pairs are in. */
  ghost predicate Filling(d: seq<byte>, p: seq<Pair>, i: nat, n: nat, hash: Field -> nat)
    requires i <= |p|
  {
    && |d| == TotalSize(p) <= MAX_BYTES && Meta(d)
    && var l := LayoutOf(d);
       && l.count == |p| && |l.slots| == n && |l.body| == BodySize(p[..i])
       && Table(l.slots, Recs(l.body), hash) && View(l.slots, Recs(l.body)) == ToMap(p[..i])
       && Probing.Occupied(l.slots) == i && Distinct(p[..i])
  }

  method EncodeNext(out: array<byte>, p: seq<Pair>, i: nat, n: nat, hash: Field -> nat) returns (ok: bool)
    requires i < |p| && n == Doubled(8, 2 * |p|) && NoExpiry(p) && Filling(out[..], p, i, n, hash)
    modifies out
    ensures ok ==> Filling(out[..], p, i + 1, n, hash)
    ensures !ok ==> !Distinct(p)
  {
    hide Probing.Table, View, Recs, Record, ToMap, Named, Append, And, Word, Doubled, Distinct;
    ghost var d := out[..];
    ghost var l := LayoutOf(d);
    var f, v := p[i].field, p[i].value;
    var hit := Find(out[..], f, hash);
    FindMeans(l, f, hash, hit);
    if hit.Found? {
      Repeated(p, i);
      return false;
    }
    var rec := Record(f, v);
    BodySizeAt(p, i);
    RecordLength(f, v);
    AppendRecord(out, hit.slot, rec);
    AppendMeans(d, hit.slot, rec);
    AppendSets(l, hash, hit.slot, f, v);
    Extended(p, i);
    return true;
  }

  lemma Repeated(p: seq<Pair>, i: nat)
    requires i < |p| && p[i].field in ToMap(p[..i])
    ensures !Distinct(p)
  {
    ToMapHas(p[..i], p[i].field);
    var j :| 0 <= j < i && p[..i][j].field == p[i].field;
    assert p[j].field == p[i].field;
  }

  lemma Extended(p: seq<Pair>, i: nat)
    requires i < |p| && Distinct(p[..i]) && p[i].field !in ToMap(p[..i])
    ensures Distinct(p[..i + 1]) && ToMap(p[..i + 1]) == ToMap(p[..i])[p[i].field := Entry(p[i].value, p[i].expiresAt)]
    ensures BodySize(p[..i + 1]) == BodySize(p[..i]) + |Record(p[i].field, p[i].value)|
  {
    hide Record;
    assert p[..i + 1] == p[..i] + [p[i]] && p[..i + 1][..i] == p[..i];
    DistinctSnoc(p[..i], p[i]);
  }

  /** The sizes of a buffer just built from pairs: twice the slots, and the records with their headroom. */
  ghost predicate BuiltFrom(d: seq<byte>, p: seq<Pair>)
  {
    && Meta(d) && |LayoutOf(d).slots| == Doubled(8, 2 * |p|)
    && |LayoutOf(d).body| == BodySize(p) && LayoutOf(d).free == Reserve(BodySize(p)) - BodySize(p)
  }

  /** Builds a buffer from pairs; fails exactly when there are none, some field expires or repeats, or
      the result would pass 32 MiB. */
  method Encode(p: seq<Pair>, hash: Field -> nat) returns (r: Option<seq<byte>>)
    ensures r.Some? <==> Encodes(p)
    ensures r.Some? ==> Valid(r.value, hash) && Contents(r.value) == ToMap(p)
    ensures r.Some? ==> BuiltFrom(r.value, p)
  {
    hide Probing.Table, View, Recs, ToMap, And, Word, Doubled, BodySize;
    if p == [] { return None; }
    var slots := NextPow2(2 * |p|);
    var used, ok := MeasureRecords(p);
    if !ok { return None; }
    var dataCap := used + used / 4;
    if dataCap - used < 512 { dataCap := used + 512; }
    var total := FIXED + 4 * slots + dataCap;
    if total > MAX_BYTES { return None; }
    PowerOfTwoSmall();
    DoubledPower(8, 2 * |p|);
    var out := NewBuffer(total, |p|, slots, hash);
    FillingStart(out[..], p, slots, hash);
    for i := 0 to |p|
      invariant fresh(out) && Filling(out[..], p, i, slots, hash)
    {
      ok := EncodeNext(out, p, i, slots, hash);
      if !ok { return None; }
    }
    assert p[..|p|] == p;
    return Some(out[..]);
  }

  lemma FillingStart(d: seq<byte>, p: seq<Pair>, n: nat, hash: Field -> nat)
    requires |d| == TotalSize(p) <= MAX_BYTES && Meta(d)
    requires var l := LayoutOf(d);
      && l.count == |p| && |l.slots| == n && l.body == []
      && Table(l.slots, Recs(l.body), hash) && View(l.slots, Recs(l.body)) == map[] && Probing.Occupied(l.slots) == 0
    ensures Filling(d, p, 0, n, hash)
  {
    hide Probing.Table, View, Recs, And, Word, Doubled;
    assert p[..0] == [];
  }

  // ---- HSET on a buffer ----

  datatype Placed = Error | NoRoom | Done(added: bool)

  /** The buffer can take the field in place: its table stays below seven tenths and the free bytes
      hold the record. */
  ghost predicate RoomFor(d: seq<byte>, f: Field, v: seq<byte>)
    requires Meta(d)
  {
    && (f in Contents(d) || (|Contents(d)| + 1) * 10 < 7 * |LayoutOf(d).slots|)
    && |Record(f, v)| <= LayoutOf(d).free
  }

  lemma CountIsSize(d: seq<byte>, hash: Field -> nat)
    requires Valid(d, hash)
    ensures LayoutOf(d).count == |Contents(d)|
  {
    hide Probing.Table, View, Recs, And, Word;
    var l := LayoutOf(d);
    CollectMeans(l, hash);
    ToMapSize(PairsIn(l.slots, Recs(l.body), |l.slots|));
  }

  /** Sets one field in place when the table and the free bytes have room. */
  method SetInPlace(data: array<byte>, f: Field, v: seq<byte>, hash: Field -> nat) returns (res: Placed)
    requires Meta(data[..]) && data.Length <= MAX_BYTES
    modifies data
    ensures Meta(data[..]) && (!res.Done? ==> data[..] == old(data[..]))
    ensures old(Valid(data[..], hash)) ==> !res.Error? && (res.Done? <==> RoomFor(old(data[..]), f, v))
    ensures res.Done? ==> |LayoutOf(data[..]).slots| == |old(LayoutOf(data[..])).slots|
    ensures res.Done? ==> LayoutOf(data[..]).free == old(LayoutOf(data[..])).free - |Record(f, v)|
    ensures old(Valid(data[..], hash)) && res.Done? ==> Valid(data[..], hash)
    ensures old(Valid(data[..], hash)) && res.Done? ==> Contents(data[..]) == old(Contents(data[..]))[f := Entry(v, 0)]
    ensures old(Valid(data[..], hash)) && res.Done? ==> (res.added <==> f !in old(Contents(data[..])))
  {
    hide Probing.Table, View, Recs, Record, Named, Append, And, Word, Patch, Le;
    ghost var d := data[..];
    ghost var l := LayoutOf(d);
    var hit := Find(data[..], f, hash);
    if hit.Bad? { return Error; }
    if Valid(d, hash) {
      CountIsSize(d, hash);
      FindMeans(l, f, hash, hit);
    }
    var rec := Record(f, v);
    var count, slots, start, used := Word(data[..], 3, 4), Slots(data[..]), Start(data[..]), Used(data[..]);
    if (hit.Free? && (count + 1) * 10 >= slots * 7) || start + used + |rec| > data.Length { return NoRoom; }
    RecordLength(f, v);
    AppendRecord(data, hit.slot, rec);
    AppendMeans(d, hit.slot, rec);
    ghost var e := data[..];
    if hit.Free? { count := count + 1; }
    WordBound(d, 3);
    CopyInto(data, 3, Le(count, 4));
    PatchCount(e, count);
    if Valid(d, hash) { AppendSets(l, hash, hit.slot, f, v); }
    return Done(hit.Free?);
  }

  lemma WordBound(d: seq<byte>, off: nat)
    requires off + 4 <= |d|
    ensures Word(d, off, 4) < TWO32
  {
    WordLimits();
    FromLeRoundTrip(d[off..off + 4]);
  }

  /** No sorted list of these fields fits in a buffer. */
  ghost predicate TooLarge(m: map<Field, Entry>)
  {
    forall p :: Sorted(p) && ToMap(p) == m ==> TotalSize(p) > MAX_BYTES
  }

  /** Decodes a buffer, sets fields in the sorted pairs and encodes them again. */
  method Rebuild(d: seq<byte>, fields: seq<Field>, values: seq<seq<byte>>, hash: Field -> nat)
    returns (added: nat, r: Option<seq<byte>>)
    requires |fields| == |values| > 0
    ensures Valid(d, hash) ==> added == |SetAll(Contents(d), fields, values)| - |Contents(d)|
    ensures Valid(d, hash) ==> (r.None? <==> TooLarge(SetAll(Contents(d), fields, values)))
    ensures Valid(d, hash) && r.Some? ==>
      Valid(r.value, hash) && Contents(r.value) == SetAll(Contents(d), fields, values)
  {
    hide View, Recs, ToMap, And, Word, TotalSize, SetAll, Table, Upsert, Sorted;
    added, r := 0, None;
    var decoded := Decode(d, hash);
    if decoded.None? { return; }
    ghost var good := Valid(d, hash);
    ghost var m := if good then Contents(d) else map[];
    var pairs := decoded.value;
    if good { SetAllWhole(m, fields, values); }
    for j := 0 to |fields|
      invariant Sorted(pairs)
      invariant good ==> ToMap(pairs) == SetAll(m, fields[..j], values[..j]) && added == |ToMap(pairs)| - |m|
    {
      var isNew;
      var x := Pair(fields[j], values[j], 0);
      UpsertKeeps(pairs, x);
      UpdateSize(ToMap(pairs), x.field, Entry(x.value, 0));
      SetAllNext(m, fields, values, j);
      pairs, isNew := PutField(pairs, x);
      if isNew { added := added + 1; }
    }
    if good {
      SetAllWhole(m, fields, values);
      RebuiltFits(pairs, decoded.value, m, fields, values);
    }
    r := Encode(pairs, hash);
  }

  lemma RebuiltFits(p: seq<Pair>, before: seq<Pair>, m: map<Field, Entry>, fields: seq<Field>, values: seq<seq<byte>>)
    requires |fields| == |values| > 0 && Sorted(p) && ToMap(p) == SetAll(m, fields, values)
    requires Sorted(before) && NoExpiry(before) && ToMap(before) == m
    ensures !Encodes(p) <==> TooLarge(ToMap(p))
  {
    hide TotalSize;
    forall f | f in m ensures m[f].expiresAt == 0 {
      ToMapHas(before, f);
      var i :| 0 <= i < |before| && before[i].field == f;
      SortedDistinct(before);
      ToMapAt(before, i);
    }
    SetAllNoExpiry(m, fields, values);
    MapNoExpiry(p);
    SortedDistinct(p);
    assert fields[|fields| - 1] in ToMap(p);
    forall q | Sorted(q) && ToMap(q) == ToMap(p) ensures q == p { SortedUnique(p, q); }
  }

  /** Bytes that the records of some writes take. */
  function RecordBytes(fields: seq<Field>, values: seq<seq<byte>>): nat
    requires |fields| == |values|
  {
    if fields == [] then 0
    else
      var n := |fields| - 1;
      RecordBytes(fields[..n], values[..n]) + |Record(fields[n], values[n])|
  }

  /** Write `i` finds room in place once the writes before it have been made in place, judged on the
      buffer before all of them. */
  ghost predicate RoomAt(d: seq<byte>, fields: seq<Field>, values: seq<seq<byte>>, i: nat)
    requires Meta(d) && i < |fields| == |values|
  {
    var before := SetAll(Contents(d), fields[..i], values[..i]);
    && (fields[i] in before || (|before| + 1) * 10 < 7 * |LayoutOf(d).slots|)
    && RecordBytes(fields[..i + 1], values[..i + 1]) <= LayoutOf(d).free
  }

  /** The first write from `i` on without room, or their number. */
  ghost function FirstFull(d: seq<byte>, fields: seq<Field>, values: seq<seq<byte>>, i: nat): (k: nat)
    requires Meta(d) && i <= |fields| == |values|
    ensures i <= k <= |fields| && (k < |fields| ==> !RoomAt(d, fields, values, k))
    ensures forall j :: i <= j < k ==> RoomAt(d, fields, values, j)
    decreases |fields| - i
  {
    if i == |fields| || !RoomAt(d, fields, values, i) then i else FirstFull(d, fields, values, i + 1)
  }

  /** How many of the writes are made in place: all before the first one without room. */
  ghost function InPlace(d: seq<byte>, fields: seq<Field>, values: seq<seq<byte>>): (k: nat)
    requires Meta(d) && |fields| == |values|
    ensures k <= |fields| && (k == |fields| <==> forall i :: 0 <= i < |fields| ==> RoomAt(d, fields, values, i))
    ensures k > 0 <==> fields != [] && RoomAt(d, fields, values, 0)
  {
    FirstFull(d, fields, values, 0)
  }

  lemma InPlaceIs(d: seq<byte>, fields: seq<Field>, values: seq<seq<byte>>, k: nat)
    requires Meta(d) && k <= |fields| == |values|
    requires (forall i :: 0 <= i < k ==> RoomAt(d, fields, values, i))
    requires (k < |fields| ==> !RoomAt(d, fields, values, k))
    ensures InPlace(d, fields, values) == k
  {
    hide RoomAt;
  }

  /** Where the buffer stands after `i` writes in place. */
  ghost predicate Written(d: seq<byte>, e: seq<byte>, fields: seq<Field>, values: seq<seq<byte>>, i: nat)
    requires Meta(d) && Meta(e) && i <= |fields| == |values|
  {
    && Contents(e) == SetAll(Contents(d), fields[..i], values[..i])
    && |LayoutOf(e).slots| == |LayoutOf(d).slots|
    && LayoutOf(e).free + RecordBytes(fields[..i], values[..i]) == LayoutOf(d).free
  }

  lemma RoomNow(d: seq<byte>, e: seq<byte>, fields: seq<Field>, values: seq<seq<byte>>, i: nat)
    requires Meta(d) && Meta(e) && i < |fields| == |values| && Written(d, e, fields, values, i)
    ensures RoomAt(d, fields, values, i) <==> RoomFor(e, fields[i], values[i])
    ensures RecordBytes(fields[..i + 1], values[..i + 1]) ==
      RecordBytes(fields[..i], values[..i]) + |Record(fields[i], values[i])|
  {
    hide Contents, Record, SetAll, LayoutOf;
    assert fields[..i + 1][..i] == fields[..i] && values[..i + 1][..i] == values[..i];
  }

  /** The edit of a buffer makes all of its writes, in place or in a rebuilt buffer, or none: every write
      has room in place, or the whole result fits a buffer, or the writes made in place change nothing
      (there is none when the first one has no room).  A rebuilt buffer has still to be published. */
  ghost predicate EditsWhole(d: seq<byte>, fields: seq<Field>, values: seq<seq<byte>>)
    requires Meta(d) && |fields| == |values|
  {
    var k := InPlace(d, fields, values);
    || k == |fields|
    || !TooLarge(SetAll(Contents(d), fields, values))
    || Rewrites(Contents(d), fields[..k], values[..k])
  }

  /** HSET on an indexed hash: in place while there is room, otherwise a rebuilt buffer to publish.
      `done` fields were set in place; when the rebuild is refused, those stay set.  So the edit is all or
      nothing exactly when `EditsWhole` holds of the buffer before it; whether the command is depends on
      the publication too. */
  method Set(data: array<byte>, fields: seq<Field>, values: seq<seq<byte>>, hash: Field -> nat)
    returns (added: nat, rebuilt: Option<seq<byte>>, ok: bool, ghost done: nat)
    requires |fields| == |values| && data.Length <= MAX_BYTES
    modifies data
    ensures done <= |fields|
    ensures old(Valid(data[..], hash)) ==>
      && Valid(data[..], hash) && Contents(data[..]) == SetAll(old(Contents(data[..])), fields[..done], values[..done])
      && done == InPlace(old(data[..]), fields, values)
      && (ok || rebuilt.None?)
      && (ok <==> done == |fields| || !TooLarge(SetAll(old(Contents(data[..])), fields, values)))
      && (ok ==> (rebuilt.None? <==> done == |fields|))
      && (ok && rebuilt.Some? ==> Valid(rebuilt.value, hash))
      && (ok && rebuilt.Some? ==> Contents(rebuilt.value) == SetAll(old(Contents(data[..])), fields, values))
      && (ok ==> added == |SetAll(old(Contents(data[..])), fields, values)| - |old(Contents(data[..]))|)
      && (ok || Contents(data[..]) == old(Contents(data[..])) <==> EditsWhole(old(data[..]), fields, values))
  {
    hide Valid, Contents, Meta, LayoutOf, TotalSize, SetAll, TooLarge, InPlace, RoomAt, RoomFor, Rewrites, Written,
      EditsWhole, Record;
    added, rebuilt, ok, done := 0, None, false, 0;
    ghost var d := data[..];
    ghost var good := Valid(d, hash);
    if good { WrittenNone(d, fields, values, hash); }
    var meta := CheckMeta(data[..]);
    if !meta { return; }
    for i := 0 to |fields|
      invariant done == i && rebuilt == None && Meta(data[..])
      invariant good ==> Valid(data[..], hash) && Written(d, data[..], fields, values, i)
      invariant good ==> forall j :: 0 <= j < i ==> RoomAt(d, fields, values, j)
      invariant good ==> added == |Contents(data[..])| - |Contents(d)|
    {
      ghost var e := data[..];
      if good { RoomNow(d, e, fields, values, i); }
      var res := SetInPlace(data, fields[i], values[i], hash);
      if res.Error? { return; }
      if res.NoRoom? {
        if good { StopsAt(d, e, fields, values, i); }
        var more;
        more, rebuilt := Rebuild(data[..], fields[i..], values[i..], hash);
        added := added + more;
        ok := rebuilt.Some?;
        return;
      }
      if good { WrittenNext(d, e, data[..], fields, values, i); }
      if res.added { added := added + 1; }
      done := i + 1;
    }
    if good { StopsAt(d, data[..], fields, values, |fields|); }
    ok := true;
  }

  lemma WrittenNone(d: seq<byte>, fields: seq<Field>, values: seq<seq<byte>>, hash: Field -> nat)
    requires Valid(d, hash) && |fields| == |values|
    ensures Meta(d) && Written(d, d, fields, values, 0)
  {
    hide Contents, LayoutOf, Record;
    SetAllWhole(Contents(d), fields, values);
  }

  lemma WrittenNext(d: seq<byte>, e: seq<byte>, e': seq<byte>, fields: seq<Field>, values: seq<seq<byte>>, i: nat)
    requires Meta(d) && Meta(e) && Meta(e') && i < |fields| == |values| && Written(d, e, fields, values, i)
    requires Contents(e') == Contents(e)[fields[i] := Entry(values[i], 0)]
    requires |LayoutOf(e').slots| == |LayoutOf(e).slots|
    requires LayoutOf(e').free == LayoutOf(e).free - |Record(fields[i], values[i])|
    ensures Written(d, e', fields, values, i + 1)
    ensures |Contents(e')| == |Contents(e)| + if fields[i] in Contents(e) then 0 else 1
  {
    hide Contents, LayoutOf, Meta, Record, SetAll;
    RoomNow(d, e, fields, values, i);
    SetAllNext(Contents(d), fields, values, i);
    UpdateSize(Contents(e), fields[i], Entry(values[i], 0));
  }

  /** The writes in place have come to `i`: the end, or the first write without room. */
  lemma StopsAt(d: seq<byte>, e: seq<byte>, fields: seq<Field>, values: seq<seq<byte>>, i: nat)
    requires Meta(d) && Meta(e) && i <= |fields| == |values| && Written(d, e, fields, values, i)
    requires (forall j :: 0 <= j < i ==> RoomAt(d, fields, values, j))
    requires (i < |fields| ==> !RoomAt(d, fields, values, i))
    ensures InPlace(d, fields, values) == i && Contents(e) == SetAll(Contents(d), fields[..i], values[..i])
    ensures SetAll(Contents(e), fields[i..], values[i..]) == SetAll(Contents(d), fields, values)
    ensures i == |fields| ==> Contents(e) == SetAll(Contents(d), fields, values)
    ensures i == |fields| || !TooLarge(SetAll(Contents(d), fields, values)) || Contents(e) == Contents(d) <==>
      EditsWhole(d, fields, values)
  {
    hide Contents, LayoutOf, Meta, SetAll, RoomAt, TooLarge, Rewrites;
    InPlaceIs(d, fields, values, i);
    SetAllSplit(Contents(d), fields, values, i);
    SetAllWhole(Contents(d), fields, values);
    RewritesNothing(Contents(d), fields[..i], values[..i]);
  }

  lemma ValidMeta(d: seq<byte>, hash: Field -> nat)
    requires Valid(d, hash)
    ensures |d| <= MAX_BYTES && Meta(d) && LayoutOf(d).free <= MAX_BYTES
  {
  }

  lemma TooLargeWith(m: map<Field, Entry>, f: Field, v: seq<byte>)
    requires f in m && m[f].value == v && |v| > MAX_BYTES
    ensures TooLarge(m)
  {
    forall p: seq<Pair> | Sorted(p) && ToMap(p) == m
      ensures TotalSize(p) > MAX_BYTES
    {
      ToMapHas(p, f);
      var i :| 0 <= i < |p| && p[i].field == f;
      SortedDistinct(p);
      ToMapAt(p, i);
      BodySizeAt(p, i);
      RecordLength(f, v);
    }
  }

  /** Encoding sorted pairs and decoding the buffer gives the pairs back. */
  method EncodeThenDecode(p: seq<Pair>, hash: Field -> nat) returns (r: Option<seq<Pair>>)
    requires Sorted(p)
    ensures r == if Encodes(p) then Some(p) else None
  {
    hide Valid, Contents, ToMap, Sorted, TotalSize;
    var d := Encode(p, hash);
    if d.None? { return None; }
    r := Decode(d.value, hash);
    SortedUnique(r.value, p);
  }
}
